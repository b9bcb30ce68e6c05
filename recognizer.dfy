/** recognizer.js and dst/recognizer.js: a whole-string acceptor and a maximal-munch
    tokenizer over a string-keyed `FiniteAutomata`. The two files differ only in writing
    the tokenizer's case split as `if`/`else` or as a `switch`, so one model serves both. */
module Recognizers {
  import opened Js
  import opened Automata
  import opened Fa

  /** `ExhaustiveRecognizer`: the pattern must consume the whole string. */
  class ExhaustiveRecognizer {
    const fa: FiniteAutomata

    constructor (fa: FiniteAutomata)
      ensures this.fa == fa
    {
      this.fa := fa;
    }

    /** `recognize(str)`: the state after reading `str` from the start state; the scan
        stops as soon as `ErrorState` appears, which is where the full run ends too. */
    method Recognize(str: string) returns (state: int)
      requires fa.Valid()
      ensures state == Run(fa.mappings, fa.start, str)
    {
      state := fa.start;
      var i := 0;
      while i < |str|
        invariant 0 <= i <= |str|
        invariant state != ErrorState && state in fa.mappings
        invariant state == Run(fa.mappings, fa.start, str[..i])
      {
        RunAppend(fa.mappings, fa.start, str[..i], str[i]);
        assert str[..i + 1] == str[..i] + [str[i]];
        assert str[i..i + 1] == [str[i]];
        state := fa.Delta(state, str[i..i + 1]).value;
        if state == ErrorState {
          RunErrorPrefix(fa.mappings, fa.start, str, i + 1);
          return ErrorState;
        }
        i := i + 1;
      }
      assert str[..i] == str;
    }

    /** `accepts(str)`: the recognised state is accepting. */
    method Accepts(str: string) returns (r: bool)
      requires fa.Valid()
      ensures r <==> Run(fa.mappings, fa.start, str) in fa.accepting
    {
      var state := Recognize(str);
      r := state in fa.accepting;
    }
  }

  /** `Token(state, start, end)`. */
  datatype Token = Token(state: int, start: int, end: int)

  /** One call of `next()` seen as a value: the automaton, and the source scanned from
      position `from`. */
  datatype Tape = Tape(m: Mappings, start: int, accepting: set<int>, source: string, from: int)
  {
    predicate Valid()
    {
      Closed(m) && start in m && start != ErrorState && ErrorState !in m && 0 <= from <= |source|
    }

    /** The number of characters left to read. */
    function Left(): int
    {
      |source| - from
    }

    /** The state after `k` characters, one `delta` step per character. */
    function Walk(k: int): int
      requires Valid() && 0 <= k <= Left()
      decreases k
    {
      if k == 0 then start else Step(m, Walk(k - 1), source[from + k - 1..from + k])
    }

    /** The first `k` characters are read without reaching `ErrorState`. */
    predicate Alive(k: int)
      requires Valid() && 0 <= k <= Left()
    {
      forall j :: 0 <= j <= k ==> Walk(j) != ErrorState
    }

    /** After `k` characters the tokenizer captures: an accepting state other than the start. */
    predicate Captures(k: int)
      requires Valid() && 0 <= k <= Left()
    {
      Walk(k) != start && Walk(k) in accepting
    }

    /** After `k` characters the tokenizer is back at the start state. */
    predicate Resets(k: int)
      requires Valid() && 0 <= k <= Left()
    {
      Walk(k) == start
    }

    /** No position in `(lo, hi]` captures. */
    predicate NoCaptureIn(lo: int, hi: int)
      requires Valid() && 0 <= lo && hi <= Left()
    {
      forall k :: lo < k <= hi ==> !Captures(k)
    }

    /** No position in `(lo, hi]` returns to the start state. */
    predicate NoResetIn(lo: int, hi: int)
      requires Valid() && 0 <= lo && hi <= Left()
    {
      forall k :: lo < k <= hi ==> !Resets(k)
    }

    /** Reading stops after `k` characters: the source is exhausted or the next one leads
        to `ErrorState`. */
    predicate StopsAt(k: int)
      requires Valid() && 0 <= k <= Left()
    {
      Alive(k) && (k == Left() || Walk(k + 1) == ErrorState)
    }

    /** `t` is the token `next()` returns: the longest captured prefix (maximal munch)
        read without an error, starting after the last return to the start state. */
    predicate IsToken(t: Token)
      requires Valid()
    {
      var cap := t.end - from;
      var reset := t.start - from;
      1 <= cap <= Left() && Alive(cap) && Captures(cap) && t.state == Walk(cap) &&
      (forall k :: cap < k <= Left() && Alive(k) ==> !Captures(k)) &&
      0 <= reset <= Left() && (reset == 0 || (Alive(reset) && Resets(reset))) &&
      (forall k :: reset < k <= Left() && k > 0 && Alive(k) ==> !Resets(k))
    }

    /** No prefix read without an error captures, so `next()` throws. */
    predicate NothingCaptured()
      requires Valid()
    {
      forall k :: 1 <= k <= Left() && Alive(k) ==> !Captures(k)
    }

    /** Where `next()` reports the failure: the position of the character that led to
        `ErrorState`, or the end of the source when the whole rest reads without error. */
    predicate IsErrorAt(p: int)
      requires Valid()
    {
      (from <= p < |source| && Alive(p - from) && Walk(p + 1 - from) == ErrorState) ||
      (p == |source| && Alive(Left()))
    }

    /** The variables of `next()` after `k` characters, as a reference definition: a
        return to the start state moves the token's start, an accepting state other than
        the start is captured, any other state only becomes the current one. */
    function ScanAt(k: int): (r: Scan)
      requires Valid() && 0 <= k <= Left()
      decreases k
    {
      if k == 0 then Scan(start, None, from, from) else ScanNext(ScanAt(k - 1), Walk(k), from + k)
    }

    /** One loop step of `next()` that reaches `next` at position `position`. */
    function ScanNext(previous: Scan, next: int, position: int): (r: Scan)
      ensures r.state == next
    {
      if next == start then previous.(state := next, startIndex := position)
      else if next in accepting then Scan(next, Some(next), position, previous.startIndex)
      else previous.(state := next)
    }

    /** Where reading stops when it is at `k`: the first position from `k` on after which
        the source is exhausted or the next character leads to `ErrorState`. */
    function StopFrom(k: int): int
      requires Valid() && 0 <= k <= Left()
      decreases Left() - k
    {
      if k == Left() || Walk(k + 1) == ErrorState then k else StopFrom(k + 1)
    }

    /** The reference definition of one call of `next()`: its result and the new `index`. */
    function Outcome(): (Result<Token>, int)
      requires Valid()
    {
      StopFromBounds(this, 0);
      Finish(StopFrom(0))
    }

    /** What `next()` returns, and the `index` it leaves, when reading stops after `k`
        characters. */
    function Finish(k: int): (Result<Token>, int)
      requires Valid() && 0 <= k <= Left()
    {
      var scan := ScanAt(k);
      if scan.capturing.None? then
        (Throw(InvalidCharError(from + k)), if k < Left() then from + k + 1 else |source|)
      else
        (Ok(Token(scan.capturing.value, scan.startIndex, scan.capturingIndex)), scan.capturingIndex)
    }
  }

  /** The variables `state`, `capturingState`, `capturingIndex` and `startIndex` of `next()`. */
  datatype Scan = Scan(state: int, capturing: Option<int>, capturingIndex: int, startIndex: int)

  /** Reading stops between where it is and the end of the source. */
  lemma {:induction false} StopFromBounds(tape: Tape, k: int)
    requires tape.Valid() && 0 <= k <= tape.Left()
    ensures k <= tape.StopFrom(k) <= tape.Left()
    decreases tape.Left() - k
  {
    if k < tape.Left() && tape.Walk(k + 1) != ErrorState {
      StopFromBounds(tape, k + 1);
    }
  }

  /** The walk is the run of the automaton on the characters read. */
  lemma {:induction false} WalkIsRun(tape: Tape, k: int)
    requires tape.Valid() && 0 <= k <= tape.Left()
    ensures tape.Walk(k) == Run(tape.m, tape.start, tape.source[tape.from..tape.from + k])
    decreases k
  {
    var w := tape.source[tape.from..tape.from + k];
    if k == 0 {
      assert w == [];
    } else {
      var c := tape.source[tape.from + k - 1];
      WalkIsRun(tape, k - 1);
      assert w == tape.source[tape.from..tape.from + k - 1] + [c];
      assert tape.source[tape.from + k - 1..tape.from + k] == [c];
      RunAppend(tape.m, tape.start, tape.source[tape.from..tape.from + k - 1], c);
    }
  }

  /** One more character is alive when the step it takes avoids `ErrorState`. */
  lemma WalkStep(tape: Tape, k: int)
    requires tape.Valid() && 0 <= k < tape.Left()
    ensures tape.Alive(k + 1) <==> tape.Alive(k) && tape.Walk(k + 1) != ErrorState
  {
  }

  /** One step of the reference scan, with the new position written `j`. */
  lemma ScanStep(tape: Tape, k: int, j: int, scan: Scan, position: int)
    requires tape.Valid() && 0 <= k < tape.Left() && j == k + 1 && scan == tape.ScanAt(k)
    requires position == tape.from + j
    ensures tape.ScanAt(j) == tape.ScanNext(scan, tape.Walk(j), position)
  {
  }

  /** `fa.delta` on the next character of the tape is the next step of the walk. */
  lemma DeltaWalks(fa: FiniteAutomata, tape: Tape, k: int, j: int, state: int, alpha: string)
    requires fa.Valid() && tape == Tape(fa.mappings, fa.start, fa.accepting, tape.source, tape.from)
    requires tape.Valid() && 0 <= k < tape.Left() && j == k + 1 && state == tape.Walk(k)
    requires alpha == tape.source[tape.from + k..tape.from + k + 1]
    ensures fa.Delta(state, alpha) == Ok(tape.Walk(j))
    ensures tape.Alive(k) ==> (tape.Alive(j) <==> tape.Walk(j) != ErrorState)
  {
  }

  /** What `next()` knows after reading `i` characters: the current state, the last
      capture (if any) with its end, and where the token starts. */
  ghost predicate Scanned(tape: Tape, i: int, scan: Scan)
  {
    tape.Valid() && 0 <= i <= tape.Left() &&
    scan.state == tape.Walk(i) && tape.Alive(i) &&
    (scan.capturing.None? ==> tape.NoCaptureIn(0, i)) &&
    (scan.capturing.Some? ==>
      (var cap := scan.capturingIndex - tape.from;
       1 <= cap <= i && tape.Captures(cap) && scan.capturing.value == tape.Walk(cap) && tape.NoCaptureIn(cap, i))) &&
    (var reset := scan.startIndex - tape.from;
     0 <= reset <= i && (reset == 0 || tape.Resets(reset)) && tape.NoResetIn(reset, i))
  }

  /** The step-by-step variables of `next()` describe the tape as read so far. */
  lemma {:induction false} ScanMeaning(tape: Tape, i: int)
    requires tape.Valid() && 0 <= i <= tape.Left() && tape.Alive(i)
    ensures Scanned(tape, i, tape.ScanAt(i))
    decreases i
  {
    if i > 0 {
      WalkStep(tape, i - 1);
      ScanMeaning(tape, i - 1);
    }
  }

  /** Once reading stops, nothing further is alive, so what was seen up to the stop is
      all there is. */
  lemma {:induction false} StopLimits(tape: Tape, k: int)
    requires tape.Valid() && 0 <= k <= tape.Left() && tape.StopsAt(k)
    ensures forall j :: k < j <= tape.Left() ==> !tape.Alive(j)
  {
    forall j | k < j <= tape.Left()
      ensures !tape.Alive(j)
    {
      assert tape.Walk(k + 1) == ErrorState;
    }
  }

  /** The state `next()` is in when it stops yields the token description. */
  lemma TokenAtStop(tape: Tape, k: int, t: Token)
    requires tape.Valid() && 0 <= k <= tape.Left() && tape.StopsAt(k)
    requires var cap := t.end - tape.from;
      1 <= cap <= k && tape.Captures(cap) && t.state == tape.Walk(cap) && tape.NoCaptureIn(cap, k)
    requires var reset := t.start - tape.from;
      0 <= reset <= k && (reset == 0 || tape.Resets(reset)) && tape.NoResetIn(reset, k)
    ensures tape.IsToken(t)
  {
    StopLimits(tape, k);
    assert tape.Alive(t.end - tape.from);
    assert t.start - tape.from == 0 || tape.Alive(t.start - tape.from);
  }

  /** Stopping without a capture is the error description. */
  lemma NothingAtStop(tape: Tape, k: int)
    requires tape.Valid() && 0 <= k <= tape.Left() && tape.StopsAt(k) && tape.NoCaptureIn(0, k)
    ensures tape.NothingCaptured()
    ensures tape.IsErrorAt(if k < tape.Left() then tape.from + k else |tape.source|)
  {
    StopLimits(tape, k);
  }

  /** What `next()` returns once reading stops after `k` characters: the last capture as
      the token, or the error at `p` when there was none. */
  lemma Stop(tape: Tape, k: int, p: int, scan: Scan)
    requires tape.Valid() && 0 <= k <= tape.Left() && tape.Alive(k)
    requires k == tape.Left() || tape.Walk(k + 1) == ErrorState
    requires p == tape.from + k && scan == tape.ScanAt(k)
    ensures scan.capturing.None? ==> tape.NothingCaptured() && tape.IsErrorAt(p)
    ensures scan.capturing.Some? ==> tape.IsToken(Token(scan.capturing.value, scan.startIndex, scan.capturingIndex))
  {
    ScanMeaning(tape, k);
    assert tape.StopsAt(k);
    if scan.capturing.None? {
      NothingAtStop(tape, k);
    } else {
      TokenAtStop(tape, k, Token(scan.capturing.value, scan.startIndex, scan.capturingIndex));
    }
  }

  /** Reading from an alive position stops at an alive position. */
  lemma {:induction false} StopFromStops(tape: Tape, k: int)
    requires tape.Valid() && 0 <= k <= tape.Left() && tape.Alive(k)
    ensures k <= tape.StopFrom(k) <= tape.Left()
    ensures tape.Alive(tape.StopFrom(k)) && tape.StopsAt(tape.StopFrom(k))
    decreases tape.Left() - k
  {
    if k < tape.Left() && tape.Walk(k + 1) != ErrorState {
      WalkStep(tape, k);
      StopFromStops(tape, k + 1);
    }
  }

  /** What one call of `next()` promises: the token it returns is the longest capture
      after the last return to the start state and `index` moves to its end; when nothing
      is captured it throws `InvalidCharError` at the character that led to `ErrorState`
      (or at the end of the source) and `index` stays just past that character. */
  lemma OutcomeMeaning(tape: Tape)
    requires tape.Valid()
    ensures var (r, index) := tape.Outcome();
      r.Ok? ==> tape.IsToken(r.value) && index == r.value.end
    ensures var (r, index) := tape.Outcome();
      r.Throw? ==>
        (tape.NothingCaptured() && r.exception.InvalidCharError? &&
         tape.IsErrorAt(r.exception.index) &&
         index == (if r.exception.index < |tape.source| then r.exception.index + 1 else |tape.source|))
  {
    StopFromStops(tape, 0);
    var k := tape.StopFrom(0);
    Stop(tape, k, tape.from + k, tape.ScanAt(k));
  }

  /** Reading from any position up to an alive stop position stops there. */
  lemma {:induction false} StopFromReaches(tape: Tape, j: int, k: int)
    requires tape.Valid() && 0 <= j <= k <= tape.Left() && tape.Alive(k)
    requires k == tape.Left() || tape.Walk(k + 1) == ErrorState
    ensures tape.StopFrom(j) == k
    decreases k - j
  {
    if j < k {
      assert tape.Walk(j + 1) != ErrorState;
      StopFromReaches(tape, j + 1, k);
    }
  }

  /** At most one token satisfies the description: `next()` is determined by its input. */
  lemma TokenUnique(tape: Tape, t1: Token, t2: Token)
    requires tape.Valid() && tape.IsToken(t1) && tape.IsToken(t2)
    ensures t1 == t2
  {
    assert tape.Captures(t1.end - tape.from) && tape.Captures(t2.end - tape.from);
  }

  /** The automaton `start -a-> s1 -b-> start` with `s1` accepting, reading "abc". */
  function ResetExample(): (tape: Tape)
    ensures tape.Valid() && tape.Left() == 3
  {
    Tape(map[0 := map["a" := 1], 1 := map["b" := 0]], 0, {1}, "abc", 0)
  }

  /** The walk of `ResetExample`: `s1`, back to the start, then `ErrorState` on "c". */
  lemma ResetExampleWalk()
    ensures var tape := ResetExample();
      tape.Walk(1) == 1 && tape.Walk(2) == 0 && tape.Walk(3) == ErrorState &&
      tape.Alive(2) && !tape.Alive(3)
  {
    var tape := ResetExample();
    assert tape.source[0..1] == "a" && tape.source[1..2] == "b" && tape.source[2..3] == "c";
    assert tape.Walk(1) == 1;
    assert tape.Walk(2) == 0;
  }

  /** The start position is reset on every return to the start state, also after a
      capture: on `ResetExample`, `next()` returns a token whose start (2) lies after its
      end (1). */
  lemma StartCanPassEnd(t: Token)
    requires ResetExample().IsToken(t)
    ensures t == Token(1, 2, 1) && t.start > t.end
  {
    ResetExampleToken();
    TokenUnique(ResetExample(), t, Token(1, 2, 1));
  }

  /** The token of `ResetExample`: captured after "a", reset after "ab". */
  lemma ResetExampleToken()
    ensures ResetExample().IsToken(Token(1, 2, 1))
  {
    var tape := ResetExample();
    ResetExampleWalk();
    assert tape.Alive(1) && tape.Captures(1);
    assert tape.Resets(2);
    forall k | 1 < k <= tape.Left() && tape.Alive(k)
      ensures !tape.Captures(k)
    {
      assert k == 2;
    }
    assert forall k :: 2 < k <= tape.Left() ==> !tape.Alive(k);
  }

  /** `TokenRecognizer`: splits `source` into tokens, one per call of `next()`. */
  class TokenRecognizer {
    const fa: FiniteAutomata
    var index: int
    const source: string

    constructor (fa: FiniteAutomata, source: string)
      ensures this.fa == fa && this.source == source && index == 0
    {
      this.fa := fa;
      this.source := source;
      index := 0;
    }

    ghost predicate Valid()
      reads this, fa
    {
      fa.Valid() && 0 <= index <= |source|
    }

    /** What the next call reads. */
    ghost function Reading(): Tape
      reads this, fa
    {
      Tape(fa.mappings, fa.start, fa.accepting, source, index)
    }

    /** `next()`: reads on from `index` while no `ErrorState` appears, remembering the last
        capture; returns that token and rewinds `index` to its end, or throws
        `InvalidCharError` when nothing was captured. Positions count code points, where
        JavaScript strings count UTF-16 code units. */
    method Next() returns (r: Result<Token>)
      requires Valid()
      modifies this
      ensures Valid()
      ensures (r, index) == old(Reading()).Outcome()
    {
      ghost var tape := Reading();
      var i := index;
      var state := fa.start;
      var capturingState: Option<int> := None;
      var capturingIndex := i;
      var startIndex := i;
      while i < |source|
        invariant tape.from <= i <= |source|
        invariant tape.Alive(i - tape.from) && state == tape.Walk(i - tape.from)
        invariant tape.from <= capturingIndex <= i
        invariant Scan(state, capturingState, capturingIndex, startIndex) == tape.ScanAt(i - tape.from)
      {
        ghost var k := i - tape.from;
        ghost var scanned := Scan(state, capturingState, capturingIndex, startIndex);
        var alpha := source[i..i + 1];
        i := i + 1;
        ghost var j := i - tape.from;
        DeltaWalks(fa, tape, k, j, state, alpha);
        ScanStep(tape, k, j, scanned, i);
        state := fa.Delta(state, alpha).value;
        if state == ErrorState {
          if capturingState.None? {
            index := i;
            StopFromReaches(tape, 0, k);
            return Throw(InvalidCharError(i - 1));
          }
          index := capturingIndex;
          StopFromReaches(tape, 0, k);
          return Ok(Token(capturingState.value, startIndex, capturingIndex));
        }
        if state == fa.start {
          startIndex := i;
        } else if state in fa.accepting {
          capturingState := Some(state);
          capturingIndex := i;
        }
        assert Scan(state, capturingState, capturingIndex, startIndex) == tape.ScanNext(scanned, state, i);
      }
      index := i;
      StopFromReaches(tape, 0, i - tape.from);
      if capturingState.None? {
        return Throw(InvalidCharError(i));
      }
      index := capturingIndex;
      r := Ok(Token(capturingState.value, startIndex, capturingIndex));
    }
  }
}
