/** The reference definitions behind the subset construction of
    algs/subset-construction.js: the states one index moves a set of NFA states to, and
    the epsilon-closure of a set as the least superset closed under epsilon edges. */
module Closures {
  import opened Automata
  import opened SymbolNfa
  import SetFacts

  /** The targets `deltas` collects for one state: its list for `index`, followed by its
      `sigma` list unless `index` is `epsilon`. */
  function Moves(m: Edges, s: int, index: int): seq<int>
  {
    Targets(m, s, index) + (if index != Epsilon then Targets(m, s, Sigma) else [])
  }

  /** Every state the states of `S` move to on `index`, sigma edges included. */
  function Image(m: Edges, S: set<int>, index: int): set<int>
  {
    set s, t | s in S && t in Moves(m, s, index) :: t
  }

  /** Every state an epsilon edge leads to from a state of `S`. */
  function Post(m: Edges, S: set<int>): set<int>
  {
    set s, t | s in S && t in Targets(m, s, Epsilon) :: t
  }

  /** No epsilon edge leaves `r`. */
  predicate EpsilonClosed(m: Edges, r: set<int>)
  {
    forall s, t | s in r && t in Targets(m, s, Epsilon) :: t in r
  }

  /** The target of every edge of `m`. */
  function AllTargets(m: Edges): set<int>
  {
    set s, i, t | s in m && i in m[s] && t in m[s][i] :: t
  }

  lemma TargetsInAll(m: Edges, s: int, index: int)
    ensures forall t | t in Targets(m, s, index) :: t in AllTargets(m)
  {
    forall t | t in Targets(m, s, index)
      ensures t in AllTargets(m)
    {
      assert s in m && index in m[s] && t in m[s][index];
    }
  }

  lemma PostInAll(m: Edges, S: set<int>)
    ensures Post(m, S) <= AllTargets(m)
  {
    forall t | t in Post(m, S)
      ensures t in AllTargets(m)
    {
      var s :| s in S && t in Targets(m, s, Epsilon);
      TargetsInAll(m, s, Epsilon);
    }
  }

  lemma ImageInAll(m: Edges, S: set<int>, index: int)
    ensures Image(m, S, index) <= AllTargets(m)
  {
    forall t | t in Image(m, S, index)
      ensures t in AllTargets(m)
    {
      var s :| s in S && t in Moves(m, s, index);
      TargetsInAll(m, s, index);
      TargetsInAll(m, s, Sigma);
    }
  }

  /** The epsilon-closure of `S`, by adding epsilon successors until nothing new appears;
      each round adds an edge target not yet present, so the rounds run out. */
  function Closure(m: Edges, S: set<int>): set<int>
    decreases |AllTargets(m) - S|
  {
    var next := Post(m, S);
    if next <= S then S
    else
      PostInAll(m, S);
      var t :| t in next && t !in S;
      assert t in AllTargets(m) - S && t !in AllTargets(m) - (S + next);
      SetFacts.ProperSubsetCard(AllTargets(m) - (S + next), AllTargets(m) - S);
      Closure(m, S + next)
  }

  /** The closure keeps every state it starts from. */
  lemma {:induction false} ClosureExtends(m: Edges, S: set<int>)
    ensures S <= Closure(m, S)
    decreases |AllTargets(m) - S|
  {
    var next := Post(m, S);
    if !(next <= S) {
      PostInAll(m, S);
      var t :| t in next && t !in S;
      assert t in AllTargets(m) - S && t !in AllTargets(m) - (S + next);
      SetFacts.ProperSubsetCard(AllTargets(m) - (S + next), AllTargets(m) - S);
      ClosureExtends(m, S + next);
    }
  }

  /** The closure has no epsilon edge leaving it. */
  lemma {:induction false} ClosureIsClosed(m: Edges, S: set<int>)
    ensures EpsilonClosed(m, Closure(m, S))
    decreases |AllTargets(m) - S|
  {
    var next := Post(m, S);
    if next <= S {
      forall s, t | s in S && t in Targets(m, s, Epsilon)
        ensures t in S
      {
        assert t in next;
      }
    } else {
      PostInAll(m, S);
      var t :| t in next && t !in S;
      assert t in AllTargets(m) - S && t !in AllTargets(m) - (S + next);
      SetFacts.ProperSubsetCard(AllTargets(m) - (S + next), AllTargets(m) - S);
      ClosureIsClosed(m, S + next);
    }
  }

  /** The closure lies inside every epsilon-closed superset of `S`: only states reachable
      by epsilon edges are added. */
  lemma {:induction false} ClosureLeast(m: Edges, S: set<int>, X: set<int>)
    requires S <= X && EpsilonClosed(m, X)
    ensures Closure(m, S) <= X
    decreases |AllTargets(m) - S|
  {
    var next := Post(m, S);
    if !(next <= S) {
      PostInAll(m, S);
      var t :| t in next && t !in S;
      assert t in AllTargets(m) - S && t !in AllTargets(m) - (S + next);
      SetFacts.ProperSubsetCard(AllTargets(m) - (S + next), AllTargets(m) - S);
      forall u | u in next
        ensures u in X
      {
        var s :| s in S && u in Targets(m, s, Epsilon);
      }
      ClosureLeast(m, S + next, X);
    }
  }

  /** A closed superset of `S` inside the closure is the closure. */
  lemma ClosureUnique(m: Edges, S: set<int>, r: set<int>)
    requires S <= r && EpsilonClosed(m, r) && r <= Closure(m, S)
    ensures r == Closure(m, S)
  {
    ClosureLeast(m, S, r);
  }

  /** The closure adds nothing but edge targets. */
  lemma {:induction false} ClosureWithin(m: Edges, S: set<int>)
    ensures Closure(m, S) <= S + AllTargets(m)
  {
    ClosureExtends(m, S);
    PostInAll(m, S);
    var X := S + AllTargets(m);
    forall s, t | s in X && t in Targets(m, s, Epsilon)
      ensures t in X
    {
      TargetsInAll(m, s, Epsilon);
    }
    ClosureLeast(m, S, X);
  }

  /** The closure is empty exactly when it starts from nothing. */
  lemma ClosureEmpty(m: Edges, S: set<int>)
    ensures Closure(m, S) == {} <==> S == {}
  {
    ClosureExtends(m, S);
    if S == {} {
      ClosureLeast(m, S, {});
    }
  }

  /** Closing twice is closing once. */
  lemma ClosureIdempotent(m: Edges, S: set<int>)
    ensures Closure(m, Closure(m, S)) == Closure(m, S)
  {
    var c := Closure(m, S);
    ClosureIsClosed(m, S);
    ClosureExtends(m, c);
    ClosureLeast(m, c, c);
  }

  /** A larger start gives a larger closure. */
  lemma ClosureMonotone(m: Edges, S: set<int>, T: set<int>)
    requires S <= T
    ensures Closure(m, S) <= Closure(m, T)
  {
    ClosureExtends(m, T);
    ClosureIsClosed(m, T);
    ClosureLeast(m, S, Closure(m, T));
  }
}
