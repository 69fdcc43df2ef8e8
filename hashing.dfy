/** The multiplicative (golden-ratio) hash of the table, `hash` in hashtable.c. */
module Hashing {
  import opened CArith

  /** The multiplication constant of the source, as an exact decimal. */
  const A: real := 0.61803398875

  /** `x - (int)x`: the fractional part as C computes it, with the sign of `x`. */
  function Frac(x: real): (f: real)
    ensures x >= 0.0 ==> 0.0 <= f < 1.0
    ensures x < 0.0 ==> -1.0 < f <= 0.0
  {
    x - Trunc(x) as real
  }

  /** Scaling a fraction by a positive capacity keeps it within one capacity of zero. */
  lemma Scale(c: real, f: real)
    ensures c > 0.0 && 0.0 <= f < 1.0 ==> 0.0 <= c * f < c
    ensures c > 0.0 && -1.0 < f <= 0.0 ==> -c < c * f <= 0.0
  {
  }

  lemma TruncRange(y: real, c: int)
    requires c > 0
    ensures 0.0 <= y < c as real ==> 0 <= Trunc(y) < c
    ensures -(c as real) < y <= 0.0 ==> -c < Trunc(y) <= 0
  {
  }

  /** Truncating a fraction scaled by a positive capacity gives an index within one capacity of zero. */
  lemma TruncScaled(c: int, f: real)
    requires c > 0
    ensures 0.0 <= f < 1.0 ==> 0 <= Trunc(c as real * f) < c
    ensures -1.0 < f <= 0.0 ==> -c < Trunc(c as real * f) <= 0
  {
    Scale(c as real, f);
    TruncRange(c as real * f, c);
  }

  /** `(int)(capacity * ((key * A) - (int)(key * A)))`, evaluated exactly rather than in `float`.
      It reads the capacity it is given, which the callers take from the table header.
      A non-negative key gives a value in [0, capacity); a negative key one in (-capacity, 0]. */
  function Hash(capacity: int, key: int): (h: int)
    ensures capacity > 0 && key >= 0 ==> 0 <= h < capacity
    ensures capacity > 0 && key < 0 ==> -capacity < h <= 0
  {
    var f := Frac(key as real * A);
    if capacity > 0 then TruncScaled(capacity, f); Trunc(capacity as real * f)
    else Trunc(capacity as real * f)
  }

  /** The bucket index every caller derives from the hash, `hash(...) % divisor`. */
  function BucketOf(capacity: int, key: int, divisor: int): (i: int)
    requires divisor > 0
    ensures 0 < capacity <= divisor ==> i == Hash(capacity, key)
    ensures capacity > 0 && key >= 0 ==> 0 <= i < divisor
    ensures capacity > 0 && key < 0 ==> -divisor < i <= 0
  {
    var h := Hash(capacity, key);
    if 0 < capacity <= divisor then CModSmall(h, divisor); CMod(h, divisor)
    else CMod(h, divisor)
  }

  /** A negative key gives a negative bucket index: with capacity 5, key -1 hashes to -3
      (the fractional part of -0.618... is itself negative) and -3 % 5 is -3 in C. */
  lemma NegativeKeyIndex()
    ensures Hash(5, -1) == -3 && BucketOf(5, -1, 5) == -3
  {
    assert Trunc(-1 as real * A) == 0;
    assert Trunc(5 as real * Frac(-1 as real * A)) == -3;
    CModSmall(-3, 5);
  }

  /** The hash with the fractional part taken as `x - floor(x)`, which lies in [0, 1) for
      every key, so that a negative key also lands inside the table. */
  function HashIntended(capacity: int, key: int): (h: int)
    ensures capacity > 0 ==> 0 <= h < capacity
  {
    var p := key as real * A;
    var f := p - p.Floor as real;
    assert 0.0 <= f < 1.0;
    if capacity > 0 then TruncScaled(capacity, f); Trunc(capacity as real * f)
    else Trunc(capacity as real * f)
  }

  /** For a non-negative key the corrected hash is the source's. */
  lemma HashIntendedAgrees(capacity: int, key: int)
    requires key >= 0
    ensures HashIntended(capacity, key) == Hash(capacity, key)
  {
    var p := key as real * A;
    assert Trunc(p) == p.Floor;
  }
}
