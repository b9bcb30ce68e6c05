/** The small part of JavaScript's runtime behaviour that the automata code relies on:
    dynamically typed values as far as the code's `typeof` checks tell them apart,
    thrown exceptions, and `Array.prototype.at`. */
module Js {

  /** A JavaScript value. A `Symbol` is an integer handle (two symbols are the same value
      exactly when their handles are equal); a number is an integer. */
  datatype Value =
    | Symbol(handle: int)
    | Number(num: int)
    | Str(str: string)
    | Bool(b: bool)
    | Object
    | Function
    | Null
    | Undefined

  /** The string `typeof v` evaluates to; note that `typeof null` is "object". */
  function TypeOf(v: Value): string
  {
    match v
    case Symbol(_) => "symbol"
    case Number(_) => "number"
    case Str(_) => "string"
    case Bool(_) => "boolean"
    case Object => "object"
    case Function => "function"
    case Null => "object"
    case Undefined => "undefined"
  }

  /** A plain object literal passed to one of the `from` validators: its own enumerable fields. */
  type Record = map<string, Value>

  /** The kind of exception a call throws. Message texts are not modelled. */
  datatype Exception =
    | TypeError
    | RangeError
    | Error
    | InvalidCharError(index: int)

  /** The outcome of a call that either returns a value or throws. */
  datatype Result<+T> = Ok(value: T) | Throw(exception: Exception)
  {
    predicate IsFailure() { Throw? }

    function PropagateFailure<U>(): Result<U>
      requires Throw?
    {
      Throw(exception)
    }

    function Extract(): T
      requires Ok?
    {
      value
    }
  }

  /** The outcome of a call that returns nothing or throws. */
  datatype Outcome = Done | Thrown(exception: Exception)
  {
    predicate IsFailure() { Thrown? }

    function PropagateFailure<U>(): Result<U>
      requires Thrown?
    {
      Throw(exception)
    }
  }

  datatype Option<+T> = None | Some(value: T)

  /** The check `typeof v === kind`, failing with a TypeError, that the source puts in front of many operations. */
  function Expect(v: Value, kind: string): (r: Outcome)
    ensures r.Done? <==> TypeOf(v) == kind
    ensures r.Thrown? ==> r.exception == TypeError
  {
    if TypeOf(v) == kind then Done else Thrown(TypeError)
  }

  /** `"field" in inst && typeof inst.field === kind`, as the `from` validators check it:
      a missing field and a mistyped one both fail. */
  predicate HasField(inst: Record, field: string, kind: string)
  {
    field in inst && TypeOf(inst[field]) == kind
  }

  /** The position `Array.prototype.at(i)` reads in an array of length `len`:
      a negative index counts back from the end. */
  function AtPosition(len: nat, i: int): (k: int)
    ensures -(len as int) <= i < len ==> 0 <= k < len
    ensures 0 <= i ==> k == i
  {
    if i < 0 then i + len else i
  }

  /** `s.at(i)`: the element at `i`, counting back from the end when `i` is negative,
      and `undefined` (None) outside `-|s| <= i < |s|`. */
  function At<T>(s: seq<T>, i: int): (r: Option<T>)
    ensures r.Some? <==> -|s| <= i < |s|
    ensures 0 <= i < |s| ==> r == Some(s[i])
    ensures -|s| <= i < 0 ==> r == Some(s[|s| + i])
  {
    if -|s| <= i < |s| then Some(s[AtPosition(|s|, i)]) else None
  }

  /** `s.findIndex(p)`: the first index whose element satisfies `p`, or -1. */
  function FindIndex<T>(s: seq<T>, p: T -> bool): (r: int)
    ensures -1 <= r < |s|
    ensures r == -1 <==> forall k :: 0 <= k < |s| ==> !p(s[k])
    ensures r != -1 ==> p(s[r]) && forall k :: 0 <= k < r ==> !p(s[k])
  {
    if |s| == 0 then -1
    else if p(s[0]) then 0
    else var t := FindIndex(s[1..], p); if t == -1 then -1 else t + 1
  }

  /** `ToIntegerOrInfinity`, the conversion `Array.prototype.at` applies to its argument,
      for the values it is given here: a number is itself, `undefined` and `null` are 0. */
  function ToIntegerOrInfinity(v: Value): (r: int)
    requires v.Number? || v.Undefined? || v.Null?
    ensures v.Number? ==> r == v.num
    ensures !v.Number? ==> r == 0
  {
    if v.Number? then v.num else 0
  }
}
