/** Optional values and the double-precision numbers the analysis modules
    manipulate. A `Value` is `Some(x)` for an ordinary number and `None` for
    a number that fails `datatools::is_valid` (NaN). */
module Wrappers {

  datatype Option<+T> = None | Some(value: T) {

    /** Returns the value held in Some, or `default` for None */
    function GetOr(default: T): T {
      match this
      case Some(v) => v
      case None => default
    }
  }

  /** A computation that either yields a value or raises an exception. */
  datatype Result<+T> = Ok(value: T) | Fail(reason: string)

  /** A double as the analysis code sees it: a number, or invalid (NaN). */
  type Value = Option<real>

  function Add(a: Value, b: Value): Value {
    if a.Some? && b.Some? then Some(a.value + b.value) else None
  }

  function Sub(a: Value, b: Value): Value {
    if a.Some? && b.Some? then Some(a.value - b.value) else None
  }

  function Mul(a: Value, b: Value): Value {
    if a.Some? && b.Some? then Some(a.value * b.value) else None
  }

  lemma MulOfValid(a: real, b: real)
    ensures Mul(Some(a), Some(b)) == Some(a * b)
  {
    var m := Mul(Some(a), Some(b));
    assert m.Some? && m.value == a * b;
  }

  /** Division; a zero divisor gives an invalid value (infinities are not
      distinguished from NaN in this model). */
  function Div(a: Value, b: Value): Value {
    if a.Some? && b.Some? && b.value != 0.0 then Some(a.value / b.value) else None
  }

  /** `std::max(best, v)`: a NaN second argument never wins the comparison. */
  function MaxKeep(best: real, v: Value): real {
    if v.Some? && best < v.value then v.value else best
  }
}
