/** Products, remainders and powers of two. */
module Arithmetic {

  lemma MulMonotone(a: nat, b: nat, c: nat)
    requires a <= b
    ensures a * c <= b * c
  {
  }

  lemma {:induction false} ModCongruent(x: int, k: int, length: nat)
    requires length > 0
    ensures (x + k * length) % length == x % length
  {
    var q, r := x / length, x % length;
    assert x + k * length == (q + k) * length + r;
    DivModUnique(q + k, r, length);
  }

  lemma MultipleBound(k: int, n: int)
    requires n >= 0
    ensures k >= 1 ==> k * n >= n
    ensures k <= -1 ==> k * n <= -n
  {
  }

  lemma DivModUnique(q: int, r: nat, length: nat)
    requires r < length
    ensures (q * length + r) % length == r
  {
    var x := q * length + r;
    MultipleBound(q - x / length, length);
    assert (q - x / length) * length == x % length - r;
  }

  function Pow2(n: nat): (p: nat)
    ensures p > 0
  {
    if n == 0 then 1 else 2 * Pow2(n - 1)
  }

  lemma {:induction false} Pow2Grows(a: nat, b: nat)
    requires a <= b
    ensures Pow2(a) <= Pow2(b)
    decreases b
  {
    if a < b {
      Pow2Grows(a, b - 1);
    }
  }
}
