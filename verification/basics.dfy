/** Small shared vocabulary: optional values, error-carrying results and
    Python's truncating int() conversion of a float. */
module Basics {

  /** A value that may be absent (Python's None). */
  datatype Option<+T> = None | Some(value: T)

  /** The outcome of an operation that can raise (e.g. `strptime` on
      malformed text): the error carries the offending input text. */
  datatype Result<+T, +E> = Success(value: T) | Failure(error: E)

  /** The larger of two integers (the clamp at zero of the remaining minutes).
      Dafny's `int` and `real` share no ordered supertype, so the real-valued
      clamp of the ease floor is `MaxReal` below. */
  function Max(a: int, b: int): (m: int)
    ensures m >= a && m >= b
    ensures m == a || m == b
  {
    if a >= b then a else b
  }

  /** The larger of two reals (the 1.3 floor of the ease factor). */
  function MaxReal(a: real, b: real): (m: real)
    ensures m >= a && m >= b
    ensures m == a || m == b
  {
    if a >= b then a else b
  }

  /** Python's int(x) on a float rounds toward zero. */
  function Trunc(x: real): (r: int)
    ensures 0.0 <= x ==> 0 <= r && r as real <= x < r as real + 1.0
    ensures x < 0.0 ==> r <= 0 && r as real - 1.0 < x <= r as real
  {
    if x >= 0.0 then x.Floor else -((-x).Floor)
  }

  /** Truncation never decreases when its argument grows. */
  lemma TruncMonotonic(x: real, y: real)
    requires x <= y
    ensures Trunc(x) <= Trunc(y)
  {
    if 0.0 <= x {
      assert Trunc(x) as real <= x <= y;
    } else if y < 0.0 {
      assert Trunc(x) as real - 1.0 < x <= y <= Trunc(y) as real;
    }
  }

  /** An integer lower bound survives truncation. */
  lemma TruncAtLeast(x: real, n: int)
    requires n as real <= x
    ensures n <= Trunc(x)
  {
    if 0.0 <= x {
      assert (n as real) < Trunc(x) as real + 1.0;
    }
  }
}
