/** The FIFO work list of utils/worklist.js, whose `Symbol.iterator` generator and `iter()`
    generator run the same loop. dst/worklist.js has the iterator, `has` and `add` but no
    `iter()`; its other members are the ones modelled here. */
module WorkLists {
  import opened Js

  /** An append-only buffer with a read cursor. Iterating advances the cursor and yields the
      item it passed; items added while an iteration is under way are yielded by that same
      iteration. `visited` records what the iterations have yielded so far. */
  class WorkList<T(==)> {
    var buffer: seq<T>
    var index: nat
    ghost var visited: seq<T>

    ghost predicate Valid()
      reads this
    {
      index <= |buffer| && visited == buffer[..index]
    }

    /** `new WorkList(buffer)`: the cursor starts at the front. */
    constructor (buffer: seq<T>)
      ensures Valid()
      ensures this.buffer == buffer && index == 0 && visited == []
    {
      this.buffer := buffer;
      index := 0;
      visited := [];
    }

    /** The items still to be yielded, in order. */
    function Pending(): seq<T>
      reads this
      requires Valid()
    {
      buffer[index..]
    }

    /** One step of the iterator, and of `iter()`: while the cursor is short of the
        buffer's current length it moves one place and yields the item it passed;
        otherwise the iteration ends. */
    method Next() returns (item: Option<T>)
      requires Valid()
      modifies this
      ensures Valid() && buffer == old(buffer) && old(index) <= index
      ensures old(index) < |buffer| ==> index == old(index) + 1 && item == Some(buffer[old(index)])
      ensures old(index) == |buffer| ==> index == old(index) && item == None
      ensures item.Some? ==> visited == old(visited) + [item.value]
      ensures item.None? ==> visited == old(visited) == buffer
    {
      if |buffer| > index {
        index := index + 1;
        item := Some(buffer[index - 1]);
        visited := visited + [item.value];
        assert buffer[..index] == buffer[..index - 1] + [buffer[index - 1]];
      } else {
        item := None;
      }
    }

    /** `has(value)`: `buffer.includes(value, index)`, that is whether `value` is still pending;
        the item being processed has already been passed and no longer counts. */
    predicate Has(value: T)
      reads this
      requires Valid()
      ensures Has(value) <==> exists k :: index <= k < |buffer| && buffer[k] == value
    {
      value in buffer[index..]
    }

    /** `add(value)`: appends at the end; nothing is ever removed. */
    method Add(value: T)
      requires Valid()
      modifies this
      ensures Valid()
      ensures buffer == old(buffer) + [value] && index == old(index) && visited == old(visited)
    {
      buffer := buffer + [value];
    }
  }
}
