/** Division with remainder where the divisor is not a constant. */
module Arithmetic {
  lemma {:induction false} ModIsUnique(x: int, p: int, q: int, r: int)
    requires x == q * p + r && 0 <= r < p
    ensures x % p == r
  {
    var d := q - x / p;
    assert d * p == x % p - r;
  }

  lemma {:induction false} ModOfShifted(x: int, p: int, k: int)
    requires p >= 1
    ensures (x + k * p) % p == x % p
  {
    assert (x / p + k) * p == (x / p) * p + k * p;
    ModIsUnique(x + k * p, p, x / p + k, x % p);
  }

  lemma {:induction false} Associate(a: int, b: int, c: int)
    ensures a * (b * c) == (a * b) * c
  {
  }

  lemma {:induction false} MulAway(d: int, p: int)
    requires p >= 0
    ensures d >= 1 ==> d * p >= p
    ensures d <= 0 ==> d * p <= 0
  {
  }

  /** Numbers that are closer to each other than the divisor have different remainders. */
  lemma {:induction false} RemaindersDiffer(a: nat, b: nat, size: nat)
    requires a < b < a + size
    ensures a % size != b % size
  {
    var d := b / size - a / size;
    MulAway(d, size);
    assert d * size == (b - b % size) - (a - a % size);
  }
}
