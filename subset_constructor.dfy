/** nfa/subset-constructor.js: subset construction over the index-based NFA. Each entry is
    a set of NFA states; for every entry, in work-list order, the images on each registered
    character and then on `fail` and `eof` become edge nodes, the entry becomes a state
    node whose edge list is stored length-prefixed in `extra`, and the root node brackets
    the state nodes of all entries. */
module SubsetConstructors {
  import opened Js
  import Automata
  import opened IndexNfa
  import Ordered
  import SetFacts
  import Sets
  import WorkLists
  import ArrayLists
  import opened StrictSubsets

  /** The members of an insertion-ordered set. */
  function Elems(s: seq<int>): set<int>
  {
    set x | x in s
  }

  /** The states `S` reaches in one step on `alpha`. */
  ghost function Post(m: Mappings, S: set<int>, alpha: int): set<int>
  {
    set s, b | s in S && b in Listed(m, s, alpha) :: b
  }

  /** Every state some edge leads to. */
  ghost function Targets(m: Mappings): set<int>
  {
    set s, x, b | s in m && x in m[s] && b in m[s][x] :: b
  }

  /** The states an entry can hold: the start state and the edge targets. */
  ghost function Universe(m: Mappings): set<int>
  {
    {StartState} + Targets(m)
  }

  lemma PostWithin(m: Mappings, S: set<int>, alpha: int)
    ensures Post(m, S, alpha) <= Universe(m)
  {
    forall b | b in Post(m, S, alpha)
      ensures b in Targets(m)
    {
      var s :| s in S && b in Listed(m, s, alpha);
    }
  }

  lemma PostSnoc(m: Mappings, S: set<int>, s: int, alpha: int)
    ensures Post(m, S + {s}, alpha) == Post(m, S, alpha) + Elems(Listed(m, s, alpha))
  {
    forall b | b in Post(m, S + {s}, alpha)
      ensures b in Post(m, S, alpha) + Elems(Listed(m, s, alpha))
    {
      var s' :| s' in S + {s} && b in Listed(m, s', alpha);
    }
    forall b | b in Elems(Listed(m, s, alpha))
      ensures b in Post(m, S + {s}, alpha)
    {
      assert s in S + {s} && b in Listed(m, s, alpha);
    }
  }

  lemma PostGrows(m: Mappings, S: set<int>, T: set<int>, alpha: int)
    requires S <= T
    ensures Post(m, S, alpha) <= Post(m, T, alpha)
  {
  }

  /** `found` is the one accepting state of `S` other than `ErrorState`, or `ErrorState`
      when `S` has none. */
  ghost predicate Only(accepting: set<int>, S: set<int>, found: int)
  {
    (found != ErrorState ==> found in S && found in accepting) &&
    forall b | b in S && b in accepting && b != ErrorState :: b == found
  }

  /** `S` holds two different accepting states. */
  ghost predicate Clash(accepting: set<int>, S: set<int>)
  {
    exists b1, b2 | b1 in S && b2 in S && b1 in accepting && b2 in accepting :: b1 != b2
  }

  lemma ClashGrows(accepting: set<int>, S: set<int>, T: set<int>)
    requires Clash(accepting, S) && S <= T
    ensures Clash(accepting, T)
  {
    var b1, b2 :| b1 in S && b2 in S && b1 in accepting && b2 in accepting && b1 != b2;
    assert b1 in T && b2 in T;
  }

  /** Without `ErrorState` among the accepting states, a set with a sole accepting state
      has no clash. */
  lemma OnlyNoClash(accepting: set<int>, S: set<int>, found: int)
    requires Only(accepting, S, found) && ErrorState !in accepting
    ensures !Clash(accepting, S)
  {
  }

  /** What `deltas` returns: the images in the order first reached, and the accepting
      state among them. */
  datatype Image = Image(seen: seq<int>, found: int)

  ghost predicate Sound(accepting: set<int>, img: Image)
  {
    Ordered.Distinct(img.seen) && Only(accepting, Elems(img.seen), img.found)
  }

  /** One pass of `deltas`' inner loop, for target `b`: `b` joins `seen`; an accepting
      `b` becomes `found` when none was found yet, is passed over when it is the one
      found, and throws otherwise. */
  function Visit(accepting: set<int>, acc: Result<Image>, b: int): Result<Image>
  {
    if acc.Throw? then acc
    else
      var seen := Ordered.Add(acc.value.seen, b);
      var found := acc.value.found;
      if b !in accepting then Ok(Image(seen, found))
      else if found == ErrorState then Ok(Image(seen, b))
      else if found == b then Ok(Image(seen, found))
      else Throw(Error)
  }

  /** The inner loop over the first `k` targets. */
  function VisitAll(accepting: set<int>, acc: Result<Image>, targets: seq<int>, k: nat): Result<Image>
    requires k <= |targets|
  {
    if k == 0 then acc else Visit(accepting, VisitAll(accepting, acc, targets, k - 1), targets[k - 1])
  }

  /** One pass of the outer loop, for state `s`: a state without a mapping throws a
      TypeError, a state without a list for `alpha` is skipped. */
  function StateStep(m: Mappings, accepting: set<int>, acc: Result<Image>, s: int, alpha: int): Result<Image>
  {
    if acc.Throw? then acc
    else if s !in m then Throw(TypeError)
    else if alpha !in m[s] then acc
    else VisitAll(accepting, acc, m[s][alpha], |m[s][alpha]|)
  }

  /** The outer loop over the first `n` states. */
  function StatesFold(m: Mappings, accepting: set<int>, states: seq<int>, alpha: int, n: nat): Result<Image>
    requires n <= |states|
  {
    if n == 0 then Ok(Image([], ErrorState))
    else StateStep(m, accepting, StatesFold(m, accepting, states, alpha, n - 1), states[n - 1], alpha)
  }

  /** `deltas(subset, states, alphaIndex)`: `epsilon` and `sigma` are refused, and
      otherwise the outer loop runs over all the states. */
  function DeltasOf(m: Mappings, accepting: set<int>, states: seq<int>, alpha: int): Result<Image>
  {
    if alpha == Epsilon || alpha == Sigma then Throw(Error)
    else StatesFold(m, accepting, states, alpha, |states|)
  }

  lemma VisitMeaning(accepting: set<int>, img: Image, b: int)
    requires Sound(accepting, img)
    ensures var r := Visit(accepting, Ok(img), b);
      (r.Ok? ==> Sound(accepting, r.value) && Elems(r.value.seen) == Elems(img.seen) + {b}) &&
      (r.Throw? ==> r.exception == Error && Clash(accepting, Elems(img.seen) + {b}))
  {
    var r := Visit(accepting, Ok(img), b);
    assert Elems(Ordered.Add(img.seen, b)) == Elems(img.seen) + {b};
    if r.Throw? {
      assert img.found in Elems(img.seen) + {b} && b in Elems(img.seen) + {b};
    }
  }

  lemma ElemsSnoc(s: seq<int>, k: nat)
    requires 0 < k <= |s|
    ensures Elems(s[..k]) == Elems(s[..k - 1]) + {s[k - 1]}
  {
    assert s[..k] == s[..k - 1] + [s[k - 1]];
  }

  /** The inner loop adds exactly the targets to `seen`, keeps the found state the sole
      accepting one, and throws only on two different accepting states. */
  lemma {:induction false} VisitAllMeaning(accepting: set<int>, img: Image, targets: seq<int>, k: nat)
    requires k <= |targets| && Sound(accepting, img)
    ensures var r := VisitAll(accepting, Ok(img), targets, k);
      (r.Ok? ==> Sound(accepting, r.value) && Elems(r.value.seen) == Elems(img.seen) + Elems(targets[..k])) &&
      (r.Throw? ==> r.exception == Error && Clash(accepting, Elems(img.seen) + Elems(targets[..k])))
  {
    if k > 0 {
      VisitAllMeaning(accepting, img, targets, k - 1);
      ElemsSnoc(targets, k);
      var prev := VisitAll(accepting, Ok(img), targets, k - 1);
      if prev.Ok? {
        VisitMeaning(accepting, prev.value, targets[k - 1]);
      } else {
        ClashGrows(accepting, Elems(img.seen) + Elems(targets[..k - 1]), Elems(img.seen) + Elems(targets[..k]));
      }
    }
  }

  /** Each of the first `n` states has a mapping. */
  ghost predicate Mapped(m: Mappings, states: seq<int>, n: nat)
    requires n <= |states|
  {
    forall j | 0 <= j < n :: states[j] in m
  }

  /** What the outer loop has done after `n` states. */
  ghost predicate FoldMeaning(m: Mappings, accepting: set<int>, states: seq<int>, alpha: int, n: nat, r: Result<Image>)
    requires n <= |states|
  {
    (r.Ok? ==> Sound(accepting, r.value) && Elems(r.value.seen) == Post(m, Elems(states[..n]), alpha)) &&
    (r.Throw? ==> ((r.exception == TypeError && !Mapped(m, states, n)) ||
      (r.exception == Error && Clash(accepting, Post(m, Elems(states[..n]), alpha)))))
  }

  lemma {:induction false} StatesFoldMeaning(m: Mappings, accepting: set<int>, states: seq<int>, alpha: int, n: nat)
    requires n <= |states|
    ensures FoldMeaning(m, accepting, states, alpha, n, StatesFold(m, accepting, states, alpha, n))
  {
    if n == 0 {
      assert Elems(states[..0]) == {};
      assert Elems([]) == {};
    } else {
      StatesFoldMeaning(m, accepting, states, alpha, n - 1);
      StateStepMeaning(m, accepting, states, alpha, n, StatesFold(m, accepting, states, alpha, n - 1));
    }
  }

  /** The induction step of `StatesFoldMeaning`. */
  lemma StateStepMeaning(m: Mappings, accepting: set<int>, states: seq<int>, alpha: int, n: nat, prev: Result<Image>)
    requires 0 < n <= |states| && FoldMeaning(m, accepting, states, alpha, n - 1, prev)
    ensures FoldMeaning(m, accepting, states, alpha, n, StateStep(m, accepting, prev, states[n - 1], alpha))
  {
    var s := states[n - 1];
    ElemsSnoc(states, n);
    PostSnoc(m, Elems(states[..n - 1]), s, alpha);
    var A := Post(m, Elems(states[..n - 1]), alpha);
    var B := Post(m, Elems(states[..n]), alpha);
    if prev.Throw? {
      if prev.exception == Error {
        ClashGrows(accepting, A, B);
      }
    } else if s in m && alpha in m[s] {
      var targets := m[s][alpha];
      VisitAllMeaning(accepting, prev.value, targets, |targets|);
      assert targets[..|targets|] == targets;
    }
  }

  /** `deltas` refuses `epsilon` and `sigma`. Otherwise its image is the one-step image
      of the states, without repeats, with the sole accepting state found; it throws a
      TypeError only for a state without a mapping and an Error only when the image holds
      two different accepting states. When every state is mapped and `ErrorState` is not
      accepting, it succeeds exactly when the image has no such clash. */
  lemma DeltasMeaning(m: Mappings, accepting: set<int>, states: seq<int>, alpha: int)
    ensures var r := DeltasOf(m, accepting, states, alpha);
      ((alpha == Epsilon || alpha == Sigma) ==> r == Throw(Error)) &&
      (r.Ok? ==> Sound(accepting, r.value) && Elems(r.value.seen) == Post(m, Elems(states), alpha)) &&
      (r.Throw? ==> r.exception == TypeError || r.exception == Error) &&
      (r.Throw? && r.exception == TypeError ==> exists s | s in states :: s !in m) &&
      (alpha != Epsilon && alpha != Sigma && r.Throw? && r.exception == Error ==> Clash(accepting, Post(m, Elems(states), alpha))) &&
      (alpha != Epsilon && alpha != Sigma && (forall s | s in states :: s in m) && ErrorState !in accepting ==>
        (r.Ok? <==> !Clash(accepting, Post(m, Elems(states), alpha))))
  {
    if alpha != Epsilon && alpha != Sigma {
      StatesFoldMeaning(m, accepting, states, alpha, |states|);
      assert states[..|states|] == states;
      var r := DeltasOf(m, accepting, states, alpha);
      if r.Throw? && r.exception == TypeError {
        assert !Mapped(m, states, |states|);
        var j :| 0 <= j < |states| && states[j] !in m;
        var s0 := states[j];
        assert s0 in states && s0 !in m;
      }
      if r.Ok? && ErrorState !in accepting {
        OnlyNoClash(accepting, Elems(r.value.seen), r.value.found);
      }
    }
  }

  lemma {:induction false} VisitAllStops(accepting: set<int>, acc: Result<Image>, targets: seq<int>, k: nat, k': nat)
    requires k <= k' <= |targets| && VisitAll(accepting, acc, targets, k).Throw?
    ensures VisitAll(accepting, acc, targets, k') == VisitAll(accepting, acc, targets, k)
    decreases k'
  {
    if k < k' {
      VisitAllStops(accepting, acc, targets, k, k' - 1);
    }
  }

  lemma {:induction false} StatesFoldStops(m: Mappings, accepting: set<int>, states: seq<int>, alpha: int, n: nat, n': nat)
    requires n <= n' <= |states| && StatesFold(m, accepting, states, alpha, n).Throw?
    ensures StatesFold(m, accepting, states, alpha, n') == StatesFold(m, accepting, states, alpha, n)
    decreases n'
  {
    if n < n' {
      StatesFoldStops(m, accepting, states, alpha, n, n' - 1);
    }
  }

  /** The inner loop of `deltas`, leaving at the first clash. */
  method VisitTargets(accepting: set<int>, img: Image, targets: seq<int>) returns (r: Result<Image>)
    ensures r == VisitAll(accepting, Ok(img), targets, |targets|)
  {
    var seen := img.seen;
    var found := img.found;
    var j := 0;
    while j < |targets|
      invariant 0 <= j <= |targets|
      invariant VisitAll(accepting, Ok(img), targets, j) == Ok(Image(seen, found))
    {
      var b := targets[j];
      if b !in seen {
        seen := seen + [b];
      }
      if b in accepting {
        if found == ErrorState {
          found := b;
        } else if found != b {
          VisitAllStops(accepting, Ok(img), targets, j + 1, |targets|);
          return Throw(Error);
        }
      }
      j := j + 1;
    }
    r := Ok(Image(seen, found));
  }

  /** `deltas(subset, states, alphaIndex)`. */
  method Deltas(subset: SubsetGen, states: seq<int>, alpha: int) returns (r: Result<Image>)
    ensures r == DeltasOf(subset.mappings, subset.accepting, states, alpha)
  {
    if alpha == Epsilon {
      return Throw(Error);
    }
    if alpha == Sigma {
      return Throw(Error);
    }
    var img := Image([], ErrorState);
    var i := 0;
    while i < |states|
      invariant 0 <= i <= |states|
      invariant StatesFold(subset.mappings, subset.accepting, states, alpha, i) == Ok(img)
    {
      var s := states[i];
      if s !in subset.mappings {
        StatesFoldStops(subset.mappings, subset.accepting, states, alpha, i + 1, |states|);
        return Throw(TypeError);
      }
      var mapping := subset.mappings[s];
      if alpha in mapping {
        var next := VisitTargets(subset.accepting, img, mapping[alpha]);
        if next.Throw? {
          StatesFoldStops(subset.mappings, subset.accepting, states, alpha, i + 1, |states|);
          return next;
        }
        img := next.value;
      }
      i := i + 1;
    }
    r := Ok(img);
  }

  /** What the construction has built so far: the entries, the nodes, and the contents of
      `extra` and `scratch`. */
  datatype Progress = Progress(entries: seq<Entry>, nodes: seq<Node>, extra: seq<int>, scratch: seq<int>)

  function ProgressOf(subset: SubsetGen): Progress
    reads subset, subset.extra, subset.scratch
    requires subset.scratch.Valid()
  {
    Progress(subset.entries, subset.nodes, subset.extra.buffer, subset.scratch.Items())
  }

  /** The test `handleEdge` hands to `findIndex`. */
  function SameStates(images: seq<int>): Entry -> bool
  {
    (e: Entry) => Sets.SetsAreEqual(Elems(e.states), Elems(images))
  }

  /** `subset.entries.findIndex(entry => setsAreEqual(entry.states, images))`: the first
      entry holding the same set of states, or -1. */
  function FindEntry(entries: seq<Entry>, images: seq<int>): (t: int)
    ensures -1 <= t < |entries|
    ensures t == -1 <==> forall k | 0 <= k < |entries| :: Elems(entries[k].states) != Elems(images)
    ensures t != -1 ==> Elems(entries[t].states) == Elems(images)
  {
    var t := FindIndex(entries, SameStates(images));
    if t == -1 then
      assert forall k | 0 <= k < |entries| :: Elems(entries[k].states) != Elems(images) by {
        forall k | 0 <= k < |entries|
          ensures Elems(entries[k].states) != Elems(images)
        {
          assert !SameStates(images)(entries[k]);
          Sets.SetsAreEqualIsEquality(Elems(entries[k].states), Elems(images));
        }
      }
      t
    else
      assert SameStates(images)(entries[t]);
      Sets.SetsAreEqualIsEquality(Elems(entries[t].states), Elems(images));
      t
  }

  /** `handleEdge(subset, states, alphaIndex)`: nothing for an empty image; otherwise the
      entry holding the image, pushed when new, and an edge node to it on `alphaIndex`,
      whose index goes on `scratch`. */
  function EdgeStep(m: Mappings, accepting: set<int>, g: Progress, states: seq<int>, alpha: int): (r: Result<Progress>)
    ensures r.Ok? ==> g.scratch <= r.value.scratch && g.entries <= r.value.entries && g.nodes <= r.value.nodes && r.value.extra == g.extra
  {
    var d := DeltasOf(m, accepting, states, alpha);
    if d.Throw? then Throw(d.exception)
    else if |d.value.seen| == 0 then Ok(g)
    else
      var t := FindEntry(g.entries, d.value.seen);
      var entries := if t == -1 then g.entries + [Entry(d.value.seen, d.value.found, -1)] else g.entries;
      var target := if t == -1 then |g.entries| else t;
      Ok(Progress(entries, g.nodes + [Node(EdgeTag, target, alpha)], g.extra, g.scratch + [|g.nodes|]))
  }

  /** `handleEdge` for the first `n` alphabet indices of `alphas`, in order. */
  function EdgesFrom(m: Mappings, accepting: set<int>, g: Progress, states: seq<int>, alphas: seq<int>, n: nat): (r: Result<Progress>)
    requires n <= |alphas|
    ensures r.Ok? ==> g.scratch <= r.value.scratch && g.entries <= r.value.entries && g.nodes <= r.value.nodes && r.value.extra == g.extra
  {
    if n == 0 then Ok(g)
    else
      var r := EdgesFrom(m, accepting, g, states, alphas, n - 1);
      if r.Throw? then r else EdgeStep(m, accepting, r.value, states, alphas[n - 1])
  }

  lemma {:induction false} EdgesFromStops(m: Mappings, accepting: set<int>, g: Progress, states: seq<int>, alphas: seq<int>, n: nat, n': nat)
    requires n <= n' <= |alphas| && EdgesFrom(m, accepting, g, states, alphas, n).Throw?
    ensures EdgesFrom(m, accepting, g, states, alphas, n') == EdgesFrom(m, accepting, g, states, alphas, n)
    decreases n'
  {
    if n < n' {
      EdgesFromStops(m, accepting, g, states, alphas, n, n' - 1);
    }
  }

  /** `handleEntry(subset, entryIndex)`: the edges of every alphabet index in `alphas`;
      then their node indices, taken off `scratch`, are stored length-prefixed in
      `extra`, and a state node for the entry points at them and becomes the entry's
      node. Returns the new state and the state node's index. */
  function EntryStep(m: Mappings, accepting: set<int>, alphas: seq<int>, g: Progress, i: nat): Result<(Progress, int)>
    requires i < |g.entries|
  {
    var e := EdgesFrom(m, accepting, g, g.entries[i].states, alphas, |alphas|);
    if e.Throw? then Throw(e.exception)
    else
      var h := e.value;
      var edges := h.scratch[|g.scratch|..];
      var node := |h.nodes|;
      Ok((Progress(h.entries[i := h.entries[i].(node := node)], h.nodes + [Node(StateTag, i, |h.extra|)],
        h.extra + [|edges|] + edges, g.scratch), node))
  }

  /** The alphabet indices `handleEntry` tries, in order: the registered characters',
      then `fail`, then `eof`. */
  function Handled(a: Automata.Alphabet): seq<int>
    requires forall k | k in a.keys :: k in a.index
  {
    seq(|a.keys|, k requires 0 <= k < |a.keys| => a.index[a.keys[k]]) + [Fail, Eof]
  }

  /** None of the indices is `epsilon` or `sigma`. */
  ghost predicate NoRefs(alphas: seq<int>)
  {
    forall k | 0 <= k < |alphas| :: alphas[k] != Epsilon && alphas[k] != Sigma
  }

  /** The characters of an `NFA` have indices from `AlphabetOffset` on, so `handleEntry`
      never asks `deltas` for `epsilon` or `sigma`. */
  lemma HandledNoRefs(a: Automata.Alphabet)
    requires a.Valid() && a.Dense(AlphabetOffset)
    ensures forall k | k in a.keys :: k in a.index
    ensures NoRefs(Handled(a))
  {
  }

  /** The alphabet indices among the first `n` of `alphas` on which `S` has a nonempty
      image: those that get an edge node. */
  ghost function Moves(m: Mappings, S: set<int>, alphas: seq<int>, n: nat): seq<int>
    requires n <= |alphas|
  {
    if n == 0 then []
    else Moves(m, S, alphas, n - 1) + (if Post(m, S, alphas[n - 1]) != {} then [alphas[n - 1]] else [])
  }

  /** Node `e` is an edge node on `alpha` to the entry holding the image of `S`. */
  ghost predicate EdgeNodeOk(m: Mappings, entries: seq<Entry>, nodes: seq<Node>, S: set<int>, e: int, alpha: int)
  {
    0 <= e < |nodes| && nodes[e].tag == EdgeTag && nodes[e].data2 == alpha &&
    0 <= nodes[e].data1 < |entries| && Elems(entries[nodes[e].data1].states) == Post(m, S, alpha)
  }

  /** `edges` are the edge nodes of `S` on `alphas`, in order. */
  ghost predicate EdgeList(m: Mappings, entries: seq<Entry>, nodes: seq<Node>, S: set<int>, edges: seq<int>, alphas: seq<int>)
  {
    |edges| == |alphas| && forall k | 0 <= k < |edges| :: EdgeNodeOk(m, entries, nodes, S, edges[k], alphas[k])
  }

  /** Entry `i` has been handled: its node is a state node for it, whose `data2` is the
      position in `extra` of its length-prefixed edge list, which holds an edge node for
      each index of `alphas` with a nonempty image, in order. */
  ghost predicate StateNodeOk(m: Mappings, alphas: seq<int>, entries: seq<Entry>, nodes: seq<Node>, extra: seq<int>, i: int)
  {
    0 <= i < |entries| &&
    var n := entries[i].node;
    0 <= n < |nodes| && nodes[n].tag == StateTag && nodes[n].data1 == i &&
    var x := nodes[n].data2;
    0 <= x < |extra| && 0 <= extra[x] && x + 1 + extra[x] <= |extra| &&
    EdgeList(m, entries, nodes, Elems(entries[i].states), extra[x + 1..x + 1 + extra[x]], Moves(m, Elems(entries[i].states), alphas, |alphas|))
  }

  /** Every entry holds a nonempty set of states, without repeats, with its sole
      accepting state found, and no two entries hold the same set. */
  ghost predicate EntriesOk(m: Mappings, accepting: set<int>, entries: seq<Entry>)
  {
    (forall i | 0 <= i < |entries| ::
      Ordered.Distinct(entries[i].states) && |entries[i].states| > 0 &&
      Elems(entries[i].states) <= Universe(m) && Only(accepting, Elems(entries[i].states), entries[i].found)) &&
    (forall i, j | 0 <= i < j < |entries| :: Elems(entries[i].states) != Elems(entries[j].states))
  }

  /** `h` only added to what `g` had, apart from entries' nodes. */
  ghost predicate Extends(g: Progress, h: Progress)
  {
    |g.entries| <= |h.entries| && (forall t | 0 <= t < |g.entries| :: h.entries[t].states == g.entries[t].states) &&
    g.nodes <= h.nodes && g.extra <= h.extra
  }

  lemma EdgeListExtends(m: Mappings, g: Progress, h: Progress, S: set<int>, edges: seq<int>, alphas: seq<int>)
    requires EdgeList(m, g.entries, g.nodes, S, edges, alphas) && Extends(g, h)
    ensures EdgeList(m, h.entries, h.nodes, S, edges, alphas)
  {
    forall k | 0 <= k < |edges|
      ensures EdgeNodeOk(m, h.entries, h.nodes, S, edges[k], alphas[k])
    {
      assert EdgeNodeOk(m, g.entries, g.nodes, S, edges[k], alphas[k]);
      assert h.nodes[edges[k]] == g.nodes[edges[k]];
    }
  }

  lemma StateNodeExtends(m: Mappings, alphas: seq<int>, g: Progress, h: Progress, i: int)
    requires StateNodeOk(m, alphas, g.entries, g.nodes, g.extra, i) && Extends(g, h)
    requires h.entries[i].node == g.entries[i].node
    ensures StateNodeOk(m, alphas, h.entries, h.nodes, h.extra, i)
  {
    var n := g.entries[i].node;
    var x := g.nodes[n].data2;
    assert h.nodes[n] == g.nodes[n];
    assert h.extra[x + 1..x + 1 + g.extra[x]] == g.extra[x + 1..x + 1 + g.extra[x]];
    EdgeListExtends(m, g, h, Elems(g.entries[i].states), g.extra[x + 1..x + 1 + g.extra[x]], Moves(m, Elems(g.entries[i].states), alphas, |alphas|));
  }

  /** The state of `handleEntry` for the states `S` of an entry after `n` indices of
      `alphas`, starting from `g`. */
  ghost predicate EdgesInv(m: Mappings, accepting: set<int>, alphas: seq<int>, g: Progress, h: Progress, S: set<int>, n: nat)
  {
    n <= |alphas| && EntriesOk(m, accepting, h.entries) &&
    g.entries <= h.entries && g.nodes <= h.nodes && h.extra == g.extra && g.scratch <= h.scratch &&
    EdgeList(m, h.entries, h.nodes, S, h.scratch[|g.scratch|..], Moves(m, S, alphas, n))
  }

  /** Why a construction can fail: a state of the universe without a mapping (TypeError),
      or two different accepting states in the image of some set of states (Error). */
  ghost predicate Failure(m: Mappings, accepting: set<int>, ex: Exception)
  {
    (ex == TypeError && exists s | s in Universe(m) :: s !in m) ||
    (ex == Error && exists S: set<int>, alpha: int | S <= Universe(m) :: Clash(accepting, Post(m, S, alpha)))
  }

  /** `handleEdge` keeps the entries sound and distinct and adds the edge node of the
      next index with a nonempty image; it fails only as `Failure` says. */
  lemma EdgeStepKeeps(m: Mappings, accepting: set<int>, alphas: seq<int>, g: Progress, h: Progress, states: seq<int>, n: nat)
    requires n < |alphas| && NoRefs(alphas) && Elems(states) <= Universe(m)
    requires EdgesInv(m, accepting, alphas, g, h, Elems(states), n)
    ensures var r := EdgeStep(m, accepting, h, states, alphas[n]);
      (r.Ok? ==> EdgesInv(m, accepting, alphas, g, r.value, Elems(states), n + 1)) &&
      (r.Throw? ==> Failure(m, accepting, r.exception))
  {
    var alpha := alphas[n];
    var S := Elems(states);
    DeltasMeaning(m, accepting, states, alpha);
    var d := DeltasOf(m, accepting, states, alpha);
    var r := EdgeStep(m, accepting, h, states, alpha);
    assert Moves(m, S, alphas, n + 1) == Moves(m, S, alphas, n) + (if Post(m, S, alpha) != {} then [alpha] else []);
    if d.Throw? {
      if d.exception == TypeError {
        var s :| s in states && s !in m;
        assert s in S;
      }
    } else if |d.value.seen| == 0 {
      assert Elems(d.value.seen) == {};
    } else {
      assert d.value.seen[0] in Elems(d.value.seen);
      PostWithin(m, S, alpha);
      EdgeStepAdds(m, accepting, alphas, g, h, S, n, d.value, r.value);
    }
  }

  /** A sound image no entry holds yet can be pushed as a new entry. */
  lemma EntriesPush(m: Mappings, accepting: set<int>, entries: seq<Entry>, img: Image)
    requires EntriesOk(m, accepting, entries) && FindEntry(entries, img.seen) == -1
    requires Sound(accepting, img) && |img.seen| > 0 && Elems(img.seen) <= Universe(m)
    ensures EntriesOk(m, accepting, entries + [Entry(img.seen, img.found, -1)])
  {
  }

  /** The successful, nonempty case of `EdgeStepKeeps`. */
  lemma EdgeStepAdds(m: Mappings, accepting: set<int>, alphas: seq<int>, g: Progress, h: Progress, S: set<int>, n: nat, img: Image, k: Progress)
    requires n < |alphas| && EdgesInv(m, accepting, alphas, g, h, S, n)
    requires Sound(accepting, img) && |img.seen| > 0 && Elems(img.seen) == Post(m, S, alphas[n]) && Elems(img.seen) <= Universe(m)
    requires var t := FindEntry(h.entries, img.seen);
      k == Progress(if t == -1 then h.entries + [Entry(img.seen, img.found, -1)] else h.entries,
        h.nodes + [Node(EdgeTag, if t == -1 then |h.entries| else t, alphas[n])], h.extra, h.scratch + [|h.nodes|])
    requires Moves(m, S, alphas, n + 1) == Moves(m, S, alphas, n) + [alphas[n]]
    ensures EdgesInv(m, accepting, alphas, g, k, S, n + 1)
  {
    if FindEntry(h.entries, img.seen) == -1 {
      EntriesPush(m, accepting, h.entries, img);
    }
    EdgeListAdds(m, alphas, g, h, S, n, k);
  }

  /** The edge list part of `EdgeStepAdds`. */
  lemma EdgeListAdds(m: Mappings, alphas: seq<int>, g: Progress, h: Progress, S: set<int>, n: nat, k: Progress)
    requires n < |alphas| && g.scratch <= h.scratch && g.nodes <= h.nodes && g.entries <= h.entries
    requires EdgeList(m, h.entries, h.nodes, S, h.scratch[|g.scratch|..], Moves(m, S, alphas, n))
    requires Extends(h, k) && h.entries <= k.entries && k.scratch == h.scratch + [|h.nodes|] && k.extra == h.extra
    requires EdgeNodeOk(m, k.entries, k.nodes, S, |h.nodes|, alphas[n])
    requires Moves(m, S, alphas, n + 1) == Moves(m, S, alphas, n) + [alphas[n]]
    ensures g.entries <= k.entries && g.nodes <= k.nodes && g.scratch <= k.scratch
    ensures EdgeList(m, k.entries, k.nodes, S, k.scratch[|g.scratch|..], Moves(m, S, alphas, n + 1))
  {
    EdgeListExtends(m, h, k, S, h.scratch[|g.scratch|..], Moves(m, S, alphas, n));
    assert k.scratch[|g.scratch|..] == h.scratch[|g.scratch|..] + [|h.nodes|];
  }

  /** The loop of `handleEntry` over `alphas` keeps `EdgesInv`. */
  lemma {:induction false} EdgesFromKeeps(m: Mappings, accepting: set<int>, alphas: seq<int>, g: Progress, states: seq<int>, n: nat)
    requires n <= |alphas| && NoRefs(alphas) && Elems(states) <= Universe(m) && EntriesOk(m, accepting, g.entries)
    ensures var r := EdgesFrom(m, accepting, g, states, alphas, n);
      (r.Ok? ==> EdgesInv(m, accepting, alphas, g, r.value, Elems(states), n)) &&
      (r.Throw? ==> Failure(m, accepting, r.exception))
  {
    if n == 0 {
      assert g.scratch[|g.scratch|..] == [];
    } else {
      EdgesFromKeeps(m, accepting, alphas, g, states, n - 1);
      var r := EdgesFrom(m, accepting, g, states, alphas, n - 1);
      if r.Ok? {
        EdgeStepKeeps(m, accepting, alphas, g, r.value, states, n - 1);
      }
    }
  }

  /** The start of the construction: entry 0 holds just `StartState`, with it found when
      accepting, and node 0 is the root. */
  ghost predicate Started(accepting: set<int>, entries: seq<Entry>, nodes: seq<Node>)
  {
    |entries| >= 1 && entries[0].states == [StartState] &&
    entries[0].found == (if StartState in accepting then StartState else ErrorState) &&
    |nodes| >= 1 && nodes[0].tag == RootTag
  }

  /** Between two entries of the main loop: `p` entries are handled, and `scratch` holds
      their state nodes in order. */
  ghost predicate Inv(m: Mappings, accepting: set<int>, alphas: seq<int>, g: Progress, p: nat)
  {
    p <= |g.entries| && NoRefs(alphas) && Started(accepting, g.entries, g.nodes) &&
    EntriesOk(m, accepting, g.entries) &&
    (forall i | 0 <= i < p :: StateNodeOk(m, alphas, g.entries, g.nodes, g.extra, i)) &&
    |g.scratch| == p && (forall i | 0 <= i < p :: g.scratch[i] == g.entries[i].node)
  }

  /** Handling entry `p` keeps `Inv`, once its state node is pushed on `scratch`. */
  lemma EntryStepKeeps(m: Mappings, accepting: set<int>, alphas: seq<int>, g: Progress, p: nat)
    requires Inv(m, accepting, alphas, g, p) && p < |g.entries|
    ensures var r := EntryStep(m, accepting, alphas, g, p);
      (r.Ok? ==> Inv(m, accepting, alphas, r.value.0.(scratch := r.value.0.scratch + [r.value.1]), p + 1)) &&
      (r.Throw? ==> Failure(m, accepting, r.exception))
  {
    var states := g.entries[p].states;
    EdgesFromKeeps(m, accepting, alphas, g, states, |alphas|);
    var e := EdgesFrom(m, accepting, g, states, alphas, |alphas|);
    if e.Ok? {
      EntryStepPacks(m, accepting, alphas, g, e.value, p);
    }
  }

  /** The packing half of `EntryStepKeeps`. */
  lemma EntryStepPacks(m: Mappings, accepting: set<int>, alphas: seq<int>, g: Progress, h: Progress, p: nat)
    requires Inv(m, accepting, alphas, g, p) && p < |g.entries|
    requires EdgesInv(m, accepting, alphas, g, h, Elems(g.entries[p].states), |alphas|)
    ensures var edges := h.scratch[|g.scratch|..];
      var node := |h.nodes|;
      var k := Progress(h.entries[p := h.entries[p].(node := node)], h.nodes + [Node(StateTag, p, |h.extra|)],
        h.extra + [|edges|] + edges, g.scratch + [node]);
      Inv(m, accepting, alphas, k, p + 1)
  {
    var edges := h.scratch[|g.scratch|..];
    var node := |h.nodes|;
    var k := Progress(h.entries[p := h.entries[p].(node := node)], h.nodes + [Node(StateTag, p, |h.extra|)],
      h.extra + [|edges|] + edges, g.scratch + [node]);
    var x := |h.extra|;
    assert Extends(g, k);
    assert Extends(h, k);
    forall i | 0 <= i < p
      ensures StateNodeOk(m, alphas, k.entries, k.nodes, k.extra, i)
    {
      StateNodeExtends(m, alphas, g, k, i);
    }
    assert k.extra[x] == |edges| && k.extra[x + 1..x + 1 + |edges|] == edges;
    EdgeListExtends(m, h, k, Elems(g.entries[p].states), edges, Moves(m, Elems(g.entries[p].states), alphas, |alphas|));
    assert StateNodeOk(m, alphas, k.entries, k.nodes, k.extra, p);
    assert EntriesOk(m, accepting, k.entries) by {
      assert forall i | 0 <= i < |k.entries| :: k.entries[i].states == h.entries[i].states && k.entries[i].found == h.entries[i].found;
    }
  }

  /** The finished construction: entry 0 is the start, the entries are sound and
      distinct, every entry is handled, and the root's `data1..data2` window of `extra`,
      which ends `extra`, lists the state node of every entry in order. */
  ghost predicate Complete(m: Mappings, accepting: set<int>, alphas: seq<int>, s: Subset)
  {
    Started(accepting, s.entries, s.nodes) && EntriesOk(m, accepting, s.entries) &&
    (forall i | 0 <= i < |s.entries| :: StateNodeOk(m, alphas, s.entries, s.nodes, s.extra, i)) &&
    0 <= s.nodes[0].data1 && s.nodes[0].data2 == |s.extra| && s.nodes[0].data2 - s.nodes[0].data1 == |s.entries| &&
    forall i | 0 <= i < |s.entries| :: s.extra[s.nodes[0].data1 + i] == s.entries[i].node
  }

  /** Appending the state nodes to `extra` and bracketing them in the root completes the
      construction; the root is never an edge or state node, so patching it changes no
      edge list. */
  lemma FinishCompletes(m: Mappings, accepting: set<int>, alphas: seq<int>, g: Progress, tokens: map<int, Value>, alphabets: seq<string>)
    requires Inv(m, accepting, alphas, g, |g.entries|)
    ensures Complete(m, accepting, alphas, Subset(tokens, alphabets, g.entries,
      g.nodes[0 := Node(RootTag, |g.extra|, |g.extra| + |g.scratch|)], g.extra + g.scratch))
  {
    var nodes := g.nodes[0 := Node(RootTag, |g.extra|, |g.extra| + |g.scratch|)];
    var extra := g.extra + g.scratch;
    var s := Subset(tokens, alphabets, g.entries, nodes, extra);
    assert Started(accepting, s.entries, s.nodes);
    forall i | 0 <= i < |g.entries|
      ensures StateNodeOk(m, alphas, s.entries, s.nodes, s.extra, i)
    {
      RootPatched(m, alphas, g, nodes, extra, i);
    }
    forall i | 0 <= i < |g.entries|
      ensures s.extra[s.nodes[0].data1 + i] == s.entries[i].node
    {
      assert extra[|g.extra| + i] == g.scratch[i];
    }
  }

  lemma RootPatched(m: Mappings, alphas: seq<int>, g: Progress, nodes: seq<Node>, extra: seq<int>, i: int)
    requires StateNodeOk(m, alphas, g.entries, g.nodes, g.extra, i) && |g.nodes| >= 1 && g.nodes[0].tag == RootTag
    requires |nodes| >= 1 && nodes == g.nodes[0 := Node(RootTag, nodes[0].data1, nodes[0].data2)]
    requires g.extra <= extra
    ensures StateNodeOk(m, alphas, g.entries, nodes, extra, i)
  {
    var n := g.entries[i].node;
    var x := g.nodes[n].data2;
    var S := Elems(g.entries[i].states);
    var edges := g.extra[x + 1..x + 1 + g.extra[x]];
    assert extra[x + 1..x + 1 + g.extra[x]] == edges;
    var alphas' := Moves(m, S, alphas, |alphas|);
    forall k | 0 <= k < |edges|
      ensures EdgeNodeOk(m, g.entries, nodes, S, edges[k], alphas'[k])
    {
      assert EdgeNodeOk(m, g.entries, g.nodes, S, edges[k], alphas'[k]);
    }
  }

  /** Distinct sets of states cannot outnumber the subsets of the universe. */
  lemma EntriesBound(m: Mappings, accepting: set<int>, entries: seq<Entry>)
    requires EntriesOk(m, accepting, entries)
    ensures |entries| <= |SetFacts.Subsets(Universe(m))|
  {
    var f := (k: int) => if 0 <= k < |entries| then Elems(entries[k].states) else {};
    SetFacts.InjectionCard(f, |entries|, SetFacts.Subsets(Universe(m)));
  }

  /** The `SubsetGen` invariant between two rounds of the main loop. */
  ghost predicate Running(subset: SubsetGen, alphas: seq<int>)
    reads subset, subset.worklist, subset.extra, subset.scratch
  {
    subset.Valid() &&
    Inv(subset.mappings, subset.accepting, alphas, ProgressOf(subset), subset.worklist.index)
  }

  /** One round of `for (const entryIndex of subset.worklist)`, after the scratch stack's
      top was taken at 0. */
  method HandleNext(subset: SubsetGen, ghost alphas: seq<int>) returns (r: Outcome)
    requires Running(subset, alphas) && subset.worklist.index < |subset.worklist.buffer|
    requires (forall k | k in subset.alphabet.keys :: k in subset.alphabet.index) && alphas == Handled(subset.alphabet)
    modifies subset, subset.worklist, subset.extra, subset.scratch
    ensures r.Done? ==> Running(subset, alphas)
    ensures r.Done? ==> (|old(subset.entries)| < |subset.entries| ||
      (|subset.entries| == |old(subset.entries)| && subset.worklist.index == old(subset.worklist.index) + 1))
    ensures r.Done? ==> |subset.entries| <= |SetFacts.Subsets(Universe(subset.mappings))|
    ensures r.Thrown? ==> subset.scratch.Valid() && Failure(subset.mappings, subset.accepting, r.exception)
  {
    ghost var g := ProgressOf(subset);
    ghost var p := subset.worklist.index;
    var entryIndex := subset.worklist.Next();
    assert entryIndex == Some(p);
    EntryStepKeeps(subset.mappings, subset.accepting, alphas, g, p);
    ghost var e := EntryStep(subset.mappings, subset.accepting, alphas, g, p);
    var node := HandleEntry(subset, entryIndex.value);
    if node.Throw? {
      return Thrown(node.exception);
    }
    assert ProgressOf(subset) == e.value.0;
    subset.scratch.Append(node.value);
    assert ProgressOf(subset) == e.value.0.(scratch := e.value.0.scratch + [e.value.1]);
    EntriesBound(subset.mappings, subset.accepting, subset.entries);
    r := Done;
  }

  /** Step `n` of `handleEntry`'s walk over `alphas`, stated against the whole walk. */
  method HandleEdgeAt(subset: SubsetGen, ghost g: Progress, states: seq<int>, ghost alphas: seq<int>, n: nat, alpha: int) returns (r: Outcome)
    requires subset.Valid() && n < |alphas| && alpha == alphas[n]
    requires EdgesFrom(subset.mappings, subset.accepting, g, states, alphas, n) == Ok(ProgressOf(subset))
    modifies subset, subset.worklist, subset.scratch
    ensures subset.Valid() && subset.worklist.index == old(subset.worklist.index)
    ensures old(subset.scratch.Items()) <= subset.scratch.Items()
    ensures var e := EdgesFrom(subset.mappings, subset.accepting, g, states, alphas, n + 1);
      (r.Thrown? <==> e.Throw?) && (e.Throw? ==> r.exception == e.exception) && (e.Ok? ==> ProgressOf(subset) == e.value)
  {
    r := HandleEdge(subset, states, alpha);
  }

  /** `handleEdge(subset, states, alphaIndex)`. */
  method HandleEdge(subset: SubsetGen, states: seq<int>, alpha: int) returns (r: Outcome)
    requires subset.Valid()
    modifies subset, subset.worklist, subset.scratch
    ensures subset.Valid() && subset.worklist.index == old(subset.worklist.index)
    ensures old(subset.scratch.Items()) <= subset.scratch.Items()
    ensures var e := EdgeStep(subset.mappings, subset.accepting, old(ProgressOf(subset)), states, alpha);
      (r.Thrown? <==> e.Throw?) && (e.Throw? ==> r.exception == e.exception) && (e.Ok? ==> ProgressOf(subset) == e.value)
  {
    var d := Deltas(subset, states, alpha);
    if d.Throw? {
      return Thrown(d.exception);
    }
    if |d.value.seen| == 0 {
      return Done;
    }
    var entryIndex := FindEntry(subset.entries, d.value.seen);
    if entryIndex == -1 {
      entryIndex := subset.PushEntry(Entry(d.value.seen, d.value.found, -1));
    }
    var node := subset.AddNode(Node(EdgeTag, entryIndex, alpha));
    subset.scratch.Append(node);
    r := Done;
  }

  /** The walk of `handleEntry` over the registered characters, then `fail` and `eof`. */
  method HandleEdges(subset: SubsetGen, states: seq<int>) returns (r: Outcome)
    requires subset.Valid() && forall k | k in subset.alphabet.keys :: k in subset.alphabet.index
    modifies subset, subset.worklist, subset.scratch
    ensures subset.Valid() && subset.worklist.index == old(subset.worklist.index)
    ensures old(subset.scratch.Items()) <= subset.scratch.Items()
    ensures var e := EdgesFrom(subset.mappings, subset.accepting, old(ProgressOf(subset)), states, Handled(subset.alphabet), |Handled(subset.alphabet)|);
      (r.Thrown? <==> e.Throw?) && (e.Throw? ==> r.exception == e.exception) && (e.Ok? ==> ProgressOf(subset) == e.value)
  {
    ghost var g := ProgressOf(subset);
    ghost var alphas := Handled(subset.alphabet);
    var keys := subset.alphabet.keys;
    var j := 0;
    while j < |keys|
      invariant 0 <= j <= |keys|
      invariant subset.Valid() && subset.worklist.index == old(subset.worklist.index)
      invariant old(subset.scratch.Items()) <= subset.scratch.Items()
      invariant EdgesFrom(subset.mappings, subset.accepting, g, states, alphas, j) == Ok(ProgressOf(subset))
    {
      r := HandleEdgeAt(subset, g, states, alphas, j, subset.alphabet.index[keys[j]]);
      if r.Thrown? {
        EdgesFromStops(subset.mappings, subset.accepting, g, states, alphas, j + 1, |alphas|);
        return;
      }
      j := j + 1;
    }
    r := HandleEdgeAt(subset, g, states, alphas, j, Fail);
    if r.Thrown? {
      EdgesFromStops(subset.mappings, subset.accepting, g, states, alphas, j + 1, |alphas|);
      return;
    }
    r := HandleEdgeAt(subset, g, states, alphas, j + 1, Eof);
  }

  /** `handleEntry(subset, entryIndex)`; whatever happens, `scratch` is cut back to its
      size on entry. */
  method HandleEntry(subset: SubsetGen, entryIndex: int) returns (r: Result<int>)
    requires subset.Valid() && 0 <= entryIndex < |subset.entries|
    requires forall k | k in subset.alphabet.keys :: k in subset.alphabet.index
    modifies subset, subset.worklist, subset.extra, subset.scratch
    ensures subset.Valid() && subset.worklist.index == old(subset.worklist.index)
    ensures subset.scratch.Items() == old(subset.scratch.Items())
    ensures var e := EntryStep(subset.mappings, subset.accepting, Handled(subset.alphabet), old(ProgressOf(subset)), entryIndex);
      (r.Throw? <==> e.Throw?) && (e.Throw? ==> r.exception == e.exception) &&
      (e.Ok? ==> ProgressOf(subset) == e.value.0 && r.value == e.value.1)
  {
    var entry := subset.entries[entryIndex];
    var states := entry.states;
    var scratchTop := subset.scratch.GetSize();
    ghost var top := subset.scratch.Items();
    var o := HandleEdges(subset, states);
    assert subset.scratch.buffer[..scratchTop] == top;
    if o.Thrown? {
      var restored := subset.scratch.SetSize(Number(scratchTop));
      return Throw(o.exception);
    }
    r := PackEntry(subset, entryIndex, scratchTop);
  }

  /** The end of `handleEntry`: the edge nodes above `scratchTop` are stored
      length-prefixed in `extra`, the entry's state node is added, and `scratch` is cut
      back to `scratchTop`. */
  method PackEntry(subset: SubsetGen, entryIndex: int, scratchTop: nat) returns (r: Result<int>)
    requires subset.Valid() && 0 <= entryIndex < |subset.entries| && scratchTop <= subset.scratch.current
    modifies subset, subset.extra, subset.scratch
    ensures subset.Valid() && subset.worklist.index == old(subset.worklist.index) && subset.worklist.buffer == old(subset.worklist.buffer)
    ensures subset.scratch.Items() == old(subset.scratch.buffer[..scratchTop])
    ensures var edges := old(subset.scratch.Items()[scratchTop..]);
      r == Ok(|old(subset.nodes)|) &&
      subset.entries == old(subset.entries[entryIndex := subset.entries[entryIndex].(node := |subset.nodes|)]) &&
      subset.nodes == old(subset.nodes) + [Node(StateTag, entryIndex, |old(subset.extra.buffer)|)] &&
      subset.extra.buffer == old(subset.extra.buffer) + [|edges|] + edges
  {
    var slice := subset.scratch.Slice(Number(scratchTop), Number(subset.scratch.GetSize()));
    var extraDataIndex := subset.extra.GetSize();
    ArrayLists.OverwriteAtEnd(subset.extra.buffer, [slice.value.GetSize()]);
    subset.extra.Append(slice.value.GetSize());
    ArrayLists.OverwriteAtEnd(subset.extra.buffer, slice.value.Elements());
    subset.extra.AppendSlice(slice.value);
    var node := subset.AddNode(Node(StateTag, entryIndex, extraDataIndex));
    subset.entries := subset.entries[entryIndex := subset.entries[entryIndex].(node := node)];
    var restored := subset.scratch.SetSize(Number(scratchTop));
    r := Ok(node);
  }

  /** The start of `toSubset`: the root node, and entry 0 for `StartState` pointing at
      it. */
  method Start(nfa: NFA, tokens: map<int, Value>) returns (subset: SubsetGen)
    requires nfa.Valid()
    ensures fresh(subset) && fresh(subset.worklist) && fresh(subset.extra) && fresh(subset.scratch)
    ensures subset.mappings == nfa.mappings && subset.accepting == nfa.accepting && subset.alphabet == nfa.alphabets
    ensures subset.tokens == tokens && subset.alphabets == nfa.alphabets.keys
    ensures Running(subset, Handled(nfa.alphabets)) && subset.scratch.GetSize() == 0
  {
    HandledNoRefs(nfa.alphabets);
    subset := new SubsetGen(nfa, tokens);
    var rootNode := subset.AddNode(Node(RootTag, -1, -1));
    var first := subset.PushEntry(Entry([StartState], if StartState in nfa.accepting then StartState else ErrorState, rootNode));
    assert Elems([StartState]) == {StartState};
    assert {StartState} <= Universe(nfa.mappings);
  }

  /** `for (const entryIndex of subset.worklist)`: every entry, including those pushed
      on the way, is handled in turn. It ends because the entries are distinct subsets of
      the universe. */
  method HandleAll(subset: SubsetGen, ghost alphas: seq<int>) returns (r: Outcome)
    requires Running(subset, alphas)
    requires (forall k | k in subset.alphabet.keys :: k in subset.alphabet.index) && alphas == Handled(subset.alphabet)
    modifies subset, subset.worklist, subset.extra, subset.scratch
    ensures r.Done? ==> Running(subset, alphas) && subset.worklist.index == |subset.worklist.buffer|
    ensures r.Thrown? ==> subset.scratch.Valid() && Failure(subset.mappings, subset.accepting, r.exception)
  {
    EntriesBound(subset.mappings, subset.accepting, subset.entries);
    while subset.worklist.index < |subset.worklist.buffer|
      invariant Running(subset, alphas)
      invariant |subset.entries| <= |SetFacts.Subsets(Universe(subset.mappings))|
      decreases |SetFacts.Subsets(Universe(subset.mappings))| - |subset.entries|, |subset.entries| - subset.worklist.index
    {
      r := HandleNext(subset, alphas);
      if r.Thrown? {
        return;
      }
    }
    r := Done;
  }

  /** `toSubset(nfa, tokens)`: on success the construction is `Complete`; it fails only
      for a reachable state without a mapping (TypeError) or for a set of states whose
      image on some index holds two different accepting states (Error). */
  method ToSubset(nfa: NFA, tokens: map<int, Value>) returns (r: Result<Subset>)
    requires nfa.Valid()
    ensures r.Ok? ==> Complete(nfa.mappings, nfa.accepting, Handled(nfa.alphabets), r.value)
    ensures r.Ok? ==> r.value.tokens == tokens && r.value.alphabets == nfa.alphabets.keys
    ensures r.Throw? ==> Failure(nfa.mappings, nfa.accepting, r.exception)
  {
    HandledNoRefs(nfa.alphabets);
    ghost var alphas := Handled(nfa.alphabets);
    var subset := Start(nfa, tokens);
    var scratchTop := subset.scratch.GetSize();
    var o := HandleAll(subset, alphas);
    if o.Thrown? {
      var restored := subset.scratch.SetSize(Number(scratchTop));
      return Throw(o.exception);
    }
    r := Conclude(subset, alphas, scratchTop);
  }

  /** The end of `toSubset` once the work list is drained: the finished subset is
      complete. */
  method Conclude(subset: SubsetGen, ghost alphas: seq<int>, scratchTop: nat) returns (r: Result<Subset>)
    requires Running(subset, alphas) && subset.worklist.index == |subset.worklist.buffer| && scratchTop == 0
    modifies subset, subset.extra, subset.scratch
    ensures r.Ok? && Complete(subset.mappings, subset.accepting, alphas, r.value)
    ensures r.value.tokens == subset.tokens && r.value.alphabets == subset.alphabets
  {
    ghost var g := ProgressOf(subset);
    assert Inv(subset.mappings, subset.accepting, alphas, g, |g.entries|);
    assert g.nodes[0].tag == RootTag;
    r := Finish(subset, scratchTop);
    FinishCompletes(subset.mappings, subset.accepting, alphas, g, subset.tokens, subset.alphabets);
  }

  /** The end of `toSubset`: the state nodes on `scratch` are appended to `extra`, the
      root brackets them, and `scratch` is cut back. */
  method Finish(subset: SubsetGen, scratchTop: nat) returns (r: Result<Subset>)
    requires subset.Valid() && scratchTop == 0 && |subset.nodes| >= 1
    modifies subset, subset.extra, subset.scratch
    ensures var g := old(ProgressOf(subset));
      r == Ok(Subset(subset.tokens, subset.alphabets, g.entries,
        g.nodes[0 := Node(g.nodes[0].tag, |g.extra|, |g.extra| + |g.scratch|)], g.extra + g.scratch))
  {
    var slice := subset.scratch.Slice(Number(scratchTop), Number(subset.scratch.GetSize()));
    ghost var g := ProgressOf(subset);
    assert slice.value.Elements() == g.scratch;
    ArrayLists.OverwriteAtEnd(subset.extra.buffer, slice.value.Elements());
    subset.extra.AppendSlice(slice.value);
    assert subset.extra.buffer == g.extra + g.scratch;
    var root := subset.nodes[0];
    subset.nodes := subset.nodes[0 := root.(data1 := subset.extra.GetSize() - slice.value.GetSize())];
    subset.nodes := subset.nodes[0 := subset.nodes[0].(data2 := subset.extra.GetSize())];
    var restored := subset.scratch.SetSize(Number(scratchTop));
    assert subset.entries == g.entries;
    assert subset.extra.buffer == g.extra + g.scratch;
    assert subset.nodes == g.nodes[0 := Node(g.nodes[0].tag, |g.extra|, |g.extra| + |g.scratch|)];
    r := Ok(Subset(subset.tokens, subset.alphabets, subset.entries, subset.nodes, subset.extra.buffer));
  }
}
