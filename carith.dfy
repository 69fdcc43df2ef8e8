/** C arithmetic that the hash table relies on, stated on mathematical numbers:
    the truncating `(int)` cast of a floating-point value and the truncating
    remainder operator `%` on `int`. */
module CArith {

  /** `(int)x` in C: truncation toward zero. */
  function Trunc(x: real): (r: int)
    ensures x >= 0.0 ==> r >= 0 && r as real <= x < r as real + 1.0
    ensures x < 0.0 ==> r <= 0 && r as real - 1.0 < x <= r as real
  {
    if x >= 0.0 then x.Floor else -((-x).Floor)
  }

  /** `a % b` in C for a positive divisor (every divisor here is a table capacity; a zero
      capacity is a division by zero, which the precondition excludes): the remainder of
      truncating division, which takes the sign of `a`. */
  function CMod(a: int, b: int): (r: int)
    requires b > 0
    ensures a >= 0 ==> 0 <= r < b
    ensures a < 0 ==> -b < r <= 0
  {
    if a >= 0 then a % b else -((-a) % b)
  }

  /** A value already strictly within one divisor of zero is its own remainder. */
  lemma CModSmall(a: int, b: int)
    requires -b < a < b
    ensures CMod(a, b) == a
  {
    var m := if a >= 0 then a else -a;
    MulBound(m / b, b);
  }

  lemma MulBound(q: int, b: int)
    requires b > 0
    ensures q >= 1 ==> q * b >= b
    ensures q <= -1 ==> q * b <= -b
  {
  }
}
