/** dst/tables.js: a table stored row after row in one flat buffer with a fixed number
    of columns. */
module Tables {
  import opened Js

  /** `TablePosition`. */
  datatype Position = Position(row: int, col: int)

  /** `TablePosition.from(inst)`: both fields must be present and numbers. */
  function PositionFrom(inst: Record): (r: Result<Position>)
    ensures r.Ok? <==> HasField(inst, "row", "number") && HasField(inst, "col", "number")
    ensures r.Ok? ==> r.value == Position(inst["row"].num, inst["col"].num)
    ensures r.Throw? ==> r.exception == TypeError
  {
    if "row" !in inst || !inst["row"].Number? then Throw(TypeError)
    else if "col" !in inst || !inst["col"].Number? then Throw(TypeError)
    else Ok(Position(inst["row"].num, inst["col"].num))
  }

  /** The position record `{ row, col }` that callers pass to `get`. */
  function PositionRecord(row: int, col: int): (inst: Record)
    ensures PositionFrom(inst) == Ok(Position(row, col))
  {
    map["row" := Number(row), "col" := Number(col)]
  }

  /** What `get` returns: a stored element, `null` at or past the buffer's end, or
      `undefined` for a negative flat index (an array has no element there). */
  datatype Lookup<E> = Cell(value: E) | NullCell | UndefinedCell

  /** Reading the field `deref` of what `get` returned, for a table of numbers: a number
      has no such field, so the read gives `undefined`; on `null` or `undefined` the read
      throws. */
  function Deref(cell: Lookup<int>): (r: Result<Value>)
    ensures cell.Cell? <==> r.Ok?
    ensures r.Ok? ==> r.value == Undefined
    ensures r.Throw? ==> r.exception == TypeError
  {
    if cell.Cell? then Ok(Undefined) else Throw(TypeError)
  }

  class FixedColumnTable<E> {
    var buffer: seq<E>
    const cols: nat
    var rows: int

    /** `new FixedColumnTable(columns, init)`: `init` would fill a buffer of length 0,
        so it is never called. */
    constructor (columns: nat)
      ensures cols == columns && rows == 0 && buffer == []
    {
      cols := columns;
      rows := 0;
      buffer := [];
    }

    /** `get({ row, col })`: the element at the flat index `row * cols + col`. */
    function Get(pos: Record): (r: Result<Lookup<E>>)
      reads this
      ensures PositionFrom(pos).Throw? ==> r == Throw(TypeError)
      ensures PositionFrom(pos).Ok? ==>
        (var index := PositionFrom(pos).value.row * cols + PositionFrom(pos).value.col;
         r.Ok? &&
         (0 <= index < |buffer| ==> r.value == Cell(buffer[index])) &&
         (index >= |buffer| ==> r.value == NullCell) &&
         (index < 0 ==> r.value == UndefinedCell))
    {
      var position :- PositionFrom(pos);
      var index := position.row * cols + position.col;
      if |buffer| > index then
        if index < 0 then Ok(UndefinedCell) else Ok(Cell(buffer[index]))
      else Ok(NullCell)
    }

    /** `push(elem)`: appends one element; `rows` is the caller's to maintain. */
    method Push(elem: E)
      modifies this
      ensures buffer == old(buffer) + [elem] && rows == old(rows)
    {
      buffer := buffer + [elem];
    }

    /** The iterator: one group of `cols` reads per step, at offsets 0, cols, 2 * cols, …
        while the offset is inside the buffer; reads past the end give `undefined` (None).
        With no columns the offset never moves, so the iteration only ends when there is
        nothing to read. */
    method Rows() returns (groups: seq<seq<Option<E>>>)
      requires cols > 0 || buffer == []
      ensures |buffer| <= |groups| * cols
      ensures |groups| > 0 ==> (|groups| - 1) * cols < |buffer|
      ensures forall g :: 0 <= g < |groups| ==> |groups[g]| == cols
      ensures forall g, k :: 0 <= g < |groups| && 0 <= k < cols ==> groups[g][k] == At(buffer, g * cols + k)
    {
      groups := [];
      if cols == 0 {
        return;
      }
      var i := 0;
      while i < |buffer|
        invariant i == |groups| * cols
        invariant |groups| > 0 ==> (|groups| - 1) * cols < |buffer|
        invariant forall g :: 0 <= g < |groups| ==> |groups[g]| == cols
        invariant forall g, k :: 0 <= g < |groups| && 0 <= k < cols ==> groups[g][k] == At(buffer, g * cols + k)
        decreases |buffer| - i
      {
        var group := TakeBuffer(buffer, i, cols);
        ghost var n := |groups|;
        groups := groups + [group];
        assert (n + 1) * cols == n * cols + cols;
        forall g, k | 0 <= g < |groups| && 0 <= k < cols
          ensures groups[g][k] == At(buffer, g * cols + k)
        {
          if g == n {
            assert g * cols + k == i + k;
          }
        }
        i := i + cols;
      }
    }
  }

  /** `takeBuffer(buffer, offset, amount)`: `amount` consecutive reads from `offset`. */
  method TakeBuffer<E>(buffer: seq<E>, offset: nat, amount: nat) returns (group: seq<Option<E>>)
    ensures |group| == amount
    ensures forall k :: 0 <= k < amount ==> group[k] == At(buffer, offset + k)
  {
    group := [];
    var i := 0;
    while i < amount
      invariant 0 <= i <= amount && |group| == i
      invariant forall k :: 0 <= k < i ==> group[k] == At(buffer, offset + k)
    {
      group := group + [At(buffer, offset + i)];
      i := i + 1;
    }
  }

  /** Multiplying by `c` adds `c` per step: the one arithmetic fact the flat index needs. */
  lemma MulStep(a: int, c: int)
    ensures (a + 1) * c == a * c + c
  {
  }

  lemma {:induction false} MulMono(a: nat, b: nat, c: nat)
    requires a <= b
    ensures a * c <= b * c
    decreases b - a
  {
    if a < b {
      MulMono(a, b - 1, c);
      MulStep(b - 1, c);
    }
  }

  /** A cell inside a table of `rows` full rows lies inside its buffer. */
  lemma RowEnd(row: nat, rows: nat, cols: nat, col: nat)
    requires row < rows && col < cols
    ensures row * cols + col < rows * cols
  {
    MulMono(row + 1, rows, cols);
    MulStep(row, cols);
  }

  /** The flat index `row * cols + col` of a cell gives back its row and column. */
  lemma FlatIndex(row: nat, cols: nat, col: nat)
    requires col < cols
    ensures (row * cols + col) / cols == row && (row * cols + col) % cols == col
  {
    var x := row * cols + col;
    var q, r := x / cols, x % cols;
    assert x == q * cols + r && 0 <= r < cols;
    if q > row {
      MulMono(row + 1, q, cols);
      MulStep(row, cols);
      assert false;
    } else if q < row {
      MulMono(q + 1, row, cols);
      MulStep(q, cols);
      assert false;
    }
  }
}
