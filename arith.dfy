/** Integer facts and Python's floor division, shared by the chunking models. */
module Arith {
  /** Python's `a // b`: the quotient rounded toward negative infinity. */
  function FloorDiv(a: int, b: int): (q: int)
    requires b != 0
    ensures b > 0 ==> q * b <= a < q * b + b
    ensures b < 0 ==> q * b >= a > q * b + b
  {
    if b > 0 then a / b else (-a) / (-b)
  }

  /** `min(a, b)` */
  function Min(a: int, b: int): (m: int)
    ensures m <= a && m <= b && (m == a || m == b)
  {
    if a <= b then a else b
  }

  lemma MulMonotone(a: int, b: int, step: int)
    requires a <= b && step > 0
    ensures a * step <= b * step
  {
    assert b * step - a * step == (b - a) * step;
  }

  lemma MulCancel(a: int, b: int, step: int)
    requires step > 0 && a * step < b * step
    ensures a < b
  {
    if a >= b {
      MulMonotone(b, a, step);
    }
  }

  lemma MulSucc(a: int, b: int)
    ensures (a + 1) * b == a * b + b
  {
  }

  /** The quotient of a non-negative `i` by a positive `step` brackets `i`. */
  lemma DivBounds(i: nat, step: int)
    requires step > 0
    ensures 0 <= i / step && (i / step) * step <= i < (i / step) * step + step
  {
    assert i == (i / step) * step + i % step;
  }
}
