/** utils/arraylist.js: a growable buffer whose logical size `current` can be moved back
    and forth without discarding what lies beyond it, and read-only windows onto a buffer.
    The only element type in use is the Uint32 one, whose `verify` is `Math.floor` on a
    number; elements are integers here, so `verify` is the identity. */
module ArrayLists {
  import opened Js

  /** `ArrayListLike(TypeArg)` refuses a type argument without a callable `verify` field. */
  function CheckTypeArg(typeArg: Record): (r: Outcome)
    ensures r.Done? <==> HasField(typeArg, "verify", "function")
    ensures r.Thrown? ==> r.exception == TypeError
  {
    if "verify" in typeArg then Expect(typeArg["verify"], "function") else Thrown(TypeError)
  }

  /** The buffer after writing `vs` from position `c` on: the slots from `c` are
      overwritten and the buffer grows where the writes run past its end. */
  function Overwrite(b: seq<int>, c: nat, vs: seq<int>): (r: seq<int>)
    requires c <= |b|
    ensures |r| == if c + |vs| <= |b| then |b| else c + |vs|
    ensures r[..c + |vs|] == b[..c] + vs
    ensures c + |vs| <= |b| ==> r[c + |vs|..] == b[c + |vs|..]
  {
    b[..c] + vs + (if c + |vs| <= |b| then b[c + |vs|..] else [])
  }

  /** Writing `vs` and then `v` is writing `vs + [v]`: the step `appendSlice` and
      `appendArray` repeat. */
  lemma OverwriteAppend(b: seq<int>, c: nat, vs: seq<int>, v: int)
    requires c <= |b|
    ensures Overwrite(Overwrite(b, c, vs), c + |vs|, [v]) == Overwrite(b, c, vs + [v])
  {
    var once := Overwrite(b, c, vs);
    var lhs := Overwrite(once, c + |vs|, [v]);
    var rhs := Overwrite(b, c, vs + [v]);
    assert |lhs| == |rhs|;
    forall k | 0 <= k < |lhs|
      ensures lhs[k] == rhs[k]
    {
      if k < c + |vs| + 1 {
        assert lhs[..c + |vs| + 1][k] == rhs[..c + |vs| + 1][k];
      } else {
        assert lhs[c + |vs| + 1..][k - (c + |vs| + 1)] == rhs[c + |vs| + 1..][k - (c + |vs| + 1)];
      }
    }
  }

  /** The buffer after the loop of `appendSlice` copies positions `i` up to `end` of
      the buffer it writes to, from position `c` on: each read sees the writes before it. */
  function OwnAppend(b: seq<int>, c: nat, i: int, end: int): (r: seq<int>)
    requires c <= |b| && 0 <= i <= end <= |b|
    ensures |r| == if c + (end - i) <= |b| then |b| else c + (end - i)
    decreases end - i
  {
    if i == end then b else OwnAppend(Overwrite(b, c, [b[i]]), c + 1, i + 1, end)
  }

  /** When the copied positions all lie below the write position, reading the live buffer
      reads what was there before: after writing `vs`, copying `[i, end)` writes
      `vs + b[i..end]`. */
  lemma {:induction false} OwnAppendBelow(b: seq<int>, c: nat, vs: seq<int>, i: int, end: int)
    requires c <= |b| && 0 <= i <= end <= c
    ensures OwnAppend(Overwrite(b, c, vs), c + |vs|, i, end) == Overwrite(b, c, vs + b[i..end])
    decreases end - i
  {
    var b' := Overwrite(b, c, vs);
    if i == end {
      assert vs + b[i..end] == vs;
    } else {
      assert b'[..c + |vs|][i] == b[..c][i];
      OverwriteAppend(b, c, vs, b[i]);
      OwnAppendBelow(b, c, vs + [b[i]], i + 1, end);
      assert vs + [b[i]] + b[i + 1..end] == vs + b[i..end];
    }
  }

  /** Copying positions below the write position appends exactly what they held. */
  lemma OwnAppendPrefix(b: seq<int>, c: nat, i: int, end: int)
    requires c <= |b| && 0 <= i <= end <= c
    ensures OwnAppend(b, c, i, end)[..c + (end - i)] == b[..c] + b[i..end]
  {
    assert Overwrite(b, c, []) == b;
    OwnAppendBelow(b, c, [], i, end);
    assert [] + b[i..end] == b[i..end];
  }

  /** A list of `[1, 2, 3]` of size 1 that appends its own slice `[0, 3)` ends up as
      `[1, 1, 1, 1]`, where appending a copy of the slice would give `[1, 1, 2, 3]`. */
  lemma OwnAppendReadsWrites()
    ensures OwnAppend([1, 2, 3], 1, 0, 3) == [1, 1, 1, 1]
    ensures Overwrite([1, 2, 3], 1, [1, 2, 3]) == [1, 1, 2, 3]
  {
  }

  /** Writing at the very end of the buffer appends. */
  lemma OverwriteAtEnd(b: seq<int>, vs: seq<int>)
    ensures Overwrite(b, |b|, vs) == b + vs
  {
    assert Overwrite(b, |b|, vs)[..|b| + |vs|] == b + vs;
  }

  /** `ArrayListSlice`: a window `[start, end)` onto a buffer. */
  datatype Slice = Slice(buffer: seq<int>, start: int, end: int)
  {
    /** What `ArrayListSlice.from` guarantees of every slice it builds. */
    predicate Valid()
    {
      0 <= start <= end <= |buffer|
    }

    /** `getSize()`. */
    function GetSize(): (n: int)
      ensures Valid() ==> n == |Elements()|
    {
      end - start
    }

    /** The window's elements, in order. */
    function Elements(): seq<int>
      requires Valid()
    {
      buffer[start..end]
    }

    /** `at(index)`: reads at `start + index`, checked against the whole buffer rather than
        the window, with `Array.prototype.at`'s negative positions. */
    function At(index: Value): (r: Result<int>)
      ensures !index.Number? ==> r == Throw(TypeError)
      ensures index.Number? ==>
        var offset := start + index.num;
        if offset >= |buffer| || offset + |buffer| < 0 then r == Throw(RangeError)
        else r == Ok(buffer[AtPosition(|buffer|, offset)])
      ensures Valid() && index.Number? && 0 <= index.num < GetSize() ==> r == Ok(Elements()[index.num])
    {
      if !index.Number? then Throw(TypeError)
      else
        var offset := start + index.num;
        if offset >= |buffer| || offset + |buffer| < 0 then Throw(RangeError)
        else Ok(Js.At(buffer, offset).value)
    }
  }

  /** `ArrayListSlice.from({buffer, from, to})`: both bounds must be numbers, with
      `0 <= from <= to <= buffer.length`. */
  function SliceFrom(buffer: seq<int>, from: Value, to: Value): (r: Result<Slice>)
    ensures r.Ok? <==> from.Number? && to.Number? && 0 <= from.num <= to.num <= |buffer|
    ensures r.Ok? ==> r.value.Valid() && r.value == Slice(buffer, from.num, to.num)
    ensures r.Throw? ==> r.exception == (if from.Number? && to.Number? then RangeError else TypeError)
  {
    if !from.Number? || !to.Number? then Throw(TypeError)
    else if from.num > to.num then Throw(RangeError)
    else if from.num < 0 then Throw(RangeError)
    else if to.num > |buffer| then Throw(RangeError)
    else Ok(Slice(buffer, from.num, to.num))
  }

  /** The slice's iterator: `buffer.at(i)` for `i` from `start` up to `end`. */
  method SliceValues(slice: Slice) returns (items: seq<int>)
    requires slice.Valid()
    ensures items == slice.Elements()
  {
    items := [];
    var i := slice.start;
    while i < slice.end
      invariant slice.start <= i <= slice.end
      invariant items == slice.buffer[slice.start..i]
    {
      items := items + [Js.At(slice.buffer, i).value];
      i := i + 1;
    }
  }

  /** `reverseIterator()`: `buffer.at(i)` for `i` from `end - 1` down to `start`. */
  method SliceReversed(slice: Slice) returns (items: seq<int>)
    requires slice.Valid()
    ensures |items| == slice.GetSize()
    ensures forall k :: 0 <= k < |items| ==> items[k] == slice.Elements()[|items| - 1 - k]
  {
    items := [];
    var i := slice.end - 1;
    while i >= slice.start
      invariant slice.start - 1 <= i < slice.end
      invariant |items| == slice.end - 1 - i
      invariant forall k :: 0 <= k < |items| ==> items[k] == slice.buffer[slice.end - 1 - k]
    {
      items := items + [Js.At(slice.buffer, i).value];
      i := i - 1;
    }
  }

  /** `at(index)` of a list whose buffer is `buffer`: checked against the buffer's length
      rather than the list's size, and negative indices down to `-buffer.length` count
      back from the buffer's end. */
  function BufferAt(buffer: seq<int>, index: Value): (r: Result<int>)
    ensures !index.Number? ==> r == Throw(TypeError)
    ensures index.Number? ==>
      (r.Ok? <==> -|buffer| <= index.num < |buffer|)
    ensures index.Number? && r.Throw? ==> r.exception == RangeError
    ensures index.Number? && 0 <= index.num < |buffer| ==> r == Ok(buffer[index.num])
    ensures index.Number? && -|buffer| <= index.num < 0 ==> r == Ok(buffer[|buffer| + index.num])
  {
    if !index.Number? then Throw(TypeError)
    else if index.num >= |buffer| || index.num + |buffer| < 0 then Throw(RangeError)
    else Ok(Js.At(buffer, index.num).value)
  }

  /** The list class `ArrayListLike(Uint32)` returns. */
  class ArrayList {
    var buffer: seq<int>
    var current: nat

    ghost predicate Valid()
      reads this
    {
      current <= |buffer|
    }

    constructor ()
      ensures Valid() && buffer == [] && current == 0
    {
      buffer := [];
      current := 0;
    }

    /** The list's contents: the first `current` slots of the buffer. */
    function Items(): seq<int>
      reads this
      requires Valid()
    {
      buffer[..current]
    }

    /** `getSize()`. */
    function GetSize(): (n: nat)
      reads this
      requires Valid()
      ensures n == |Items()|
    {
      current
    }

    /** `setSize(size)`: moves the logical size anywhere within the buffer; the buffer's
        slots are kept, so a later `append` overwrites them. */
    method SetSize(size: Value) returns (r: Outcome)
      requires Valid()
      modifies this
      ensures Valid() && buffer == old(buffer)
      ensures r.Done? <==> size.Number? && 0 <= size.num <= |buffer|
      ensures r.Done? ==> current == size.num
      ensures r.Thrown? ==> current == old(current)
      ensures r.Thrown? ==> r.exception == (if size.Number? then Error else TypeError)
    {
      if !size.Number? {
        return Thrown(TypeError);
      }
      if 0 > size.num || size.num > |buffer| {
        return Thrown(Error);
      }
      current := size.num;
      r := Done;
    }

    /** `slice(from, to)`: a window onto the whole buffer, not only onto `Items()`. */
    function Slice(from: Value, to: Value): (r: Result<Slice>)
      reads this
      ensures r == SliceFrom(buffer, from, to)
    {
      SliceFrom(buffer, from, to)
    }

    /** `append(value)`: writes at `current`, over a stale slot or at a new end. */
    method Append(value: int)
      requires Valid()
      modifies this
      ensures Valid() && current == old(current) + 1
      ensures buffer == Overwrite(old(buffer), old(current), [value])
      ensures Items() == old(Items()) + [value]
    {
      if current < |buffer| {
        buffer := buffer[current := value];
      } else {
        buffer := buffer + [value];
      }
      current := current + 1;
    }

    /** `detach()`: pops the last item; the slot itself stays in the buffer. */
    method Detach() returns (r: Result<int>)
      requires Valid()
      modifies this
      ensures Valid() && buffer == old(buffer)
      ensures old(current) == 0 ==> r == Throw(Error) && current == 0
      ensures old(current) > 0 ==> current == old(current) - 1 && r == Ok(old(Items())[current])
      ensures old(current) > 0 ==> old(Items()) == Items() + [r.value]
    {
      if current == 0 {
        return Throw(Error);
      }
      current := current - 1;
      r := Ok(Js.At(buffer, current).value);
      assert buffer[..current + 1] == buffer[..current] + [buffer[current]];
    }

    /** `appendArray(values)`: appends each value in turn. */
    method AppendArray(values: seq<int>)
      requires Valid()
      modifies this
      ensures Valid() && current == old(current) + |values|
      ensures buffer == Overwrite(old(buffer), old(current), values)
      ensures Items() == old(Items()) + values
    {
      var i := 0;
      while i < |values|
        invariant 0 <= i <= |values|
        invariant Valid() && current == old(current) + i
        invariant buffer == Overwrite(old(buffer), old(current), values[..i])
      {
        OverwriteAppend(old(buffer), old(current), values[..i], values[i]);
        assert values[..i] + [values[i]] == values[..i + 1];
        Append(values[i]);
        i := i + 1;
      }
      assert values[..i] == values;
    }

    /** `appendSlice(slice)`: appends the slice's window in order, so the size grows by
        the slice's size. */
    method AppendSlice(slice: Slice)
      requires Valid() && slice.Valid()
      modifies this
      ensures Valid() && current == old(current) + slice.GetSize()
      ensures buffer == Overwrite(old(buffer), old(current), slice.Elements())
      ensures Items() == old(Items()) + slice.Elements()
    {
      var i := slice.start;
      while i < slice.end
        invariant slice.start <= i <= slice.end
        invariant Valid() && current == old(current) + (i - slice.start)
        invariant buffer == Overwrite(old(buffer), old(current), slice.buffer[slice.start..i])
      {
        var v := Js.At(slice.buffer, i).value;
        OverwriteAppend(old(buffer), old(current), slice.buffer[slice.start..i], v);
        assert slice.buffer[slice.start..i] + [v] == slice.buffer[slice.start..i + 1];
        Append(v);
        i := i + 1;
      }
    }

    /** `appendSlice(slice)` for a slice of this list's own buffer, taken since the
        buffer last changed: the loop reads the live buffer, so once it reads at or past the
        old size it reads the values it has just written. */
    method AppendOwnSlice(slice: Slice)
      requires Valid() && slice.Valid() && slice.buffer == buffer
      modifies this
      ensures Valid() && current == old(current) + slice.GetSize()
      ensures buffer == OwnAppend(old(buffer), old(current), slice.start, slice.end)
      ensures slice.end <= old(current) ==> Items() == old(Items()) + slice.Elements()
    {
      var i := slice.start;
      while i < slice.end
        invariant slice.start <= i <= slice.end <= |buffer|
        invariant Valid() && current == old(current) + (i - slice.start)
        invariant OwnAppend(buffer, current, i, slice.end) == OwnAppend(old(buffer), old(current), slice.start, slice.end)
      {
        ghost var b, c := buffer, current;
        var v := Js.At(buffer, i).value;
        assert OwnAppend(b, c, i, slice.end) == OwnAppend(Overwrite(b, c, [v]), c + 1, i + 1, slice.end);
        Append(v);
        i := i + 1;
      }
      if slice.end <= old(current) {
        OwnAppendPrefix(old(buffer), old(current), slice.start, slice.end);
      }
    }

    /** `at(index)`: checked against the buffer's length rather than `current`, and
        negative indices down to `-buffer.length` count back from the buffer's end. */
    function At(index: Value): (r: Result<int>)
      reads this
      ensures r == BufferAt(buffer, index)
    {
      BufferAt(buffer, index)
    }

    /** `set(index, value)`: the same checks as `at`, then the plain assignment
        `buffer[index] = value`. For a negative index that assignment creates a property
        named after the number instead of writing an element, so the elements stay as they
        were. */
    method Set(index: Value, value: int) returns (r: Outcome)
      requires Valid()
      modifies this
      ensures Valid() && current == old(current)
      ensures !index.Number? ==> r == Thrown(TypeError) && buffer == old(buffer)
      ensures index.Number? ==>
        (r.Done? <==> -|old(buffer)| <= index.num < |old(buffer)|)
      ensures index.Number? && r.Thrown? ==> r.exception == RangeError && buffer == old(buffer)
      ensures r.Done? && 0 <= index.num ==> buffer == old(buffer)[index.num := value]
      ensures r.Done? && index.num < 0 ==> buffer == old(buffer)
    {
      if !index.Number? {
        return Thrown(TypeError);
      }
      if index.num >= |buffer| || index.num + |buffer| < 0 {
        return Thrown(RangeError);
      }
      if 0 <= index.num {
        buffer := buffer[index.num := value];
      }
      r := Done;
    }

    /** The iterator: `buffer.at(i)` for `i` below `current`. */
    method Values() returns (items: seq<int>)
      requires Valid()
      ensures items == Items()
    {
      items := [];
      var i := 0;
      while i < current
        invariant 0 <= i <= current
        invariant items == buffer[..i]
      {
        items := items + [Js.At(buffer, i).value];
        assert buffer[..i + 1] == buffer[..i] + [buffer[i]];
        i := i + 1;
      }
    }
  }

  /** An append followed by a detach gives back the appended value and the list's old
      contents. */
  method AppendThenDetach(list: ArrayList, value: int) returns (r: Result<int>)
    requires list.Valid()
    modifies list
    ensures list.Valid() && r == Ok(value) && list.Items() == old(list.Items())
  {
    list.Append(value);
    r := list.Detach();
  }
}
