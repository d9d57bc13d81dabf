/** Facts about integer division used by the chunking and key-range arguments. */
module Arith {

  lemma MulMonotone(x: int, y: int, n: nat)
    requires x <= y
    ensures x * n <= y * n
  {
    assert y * n - x * n == (y - x) * n;
  }

  lemma MulPred(n: nat, i: nat)
    requires i > 0
    ensures n * i == n * (i - 1) + n
  {
  }

  /** A strictly smaller factor is smaller by at least one whole `n`. */
  lemma MulStrict(x: int, y: int, n: nat)
    ensures x < y ==> x * n + n <= y * n
  {
    if x < y {
      assert (x + 1) * n == x * n + n;
      MulMonotone(x + 1, y, n);
    }
  }

  /** `q` is the quotient of `a` by `n` when `a` lies in `[q * n, (q + 1) * n)`. */
  lemma DivUnique(a: nat, n: nat, q: int)
    requires n > 0
    requires q * n <= a < q * n + n
    ensures a / n == q
  {
    var d := a / n;
    assert a == d * n + a % n;
    MulStrict(d, q, n);
    MulStrict(q, d, n);
  }

  /** Below the quotient, a whole further `n` still fits in `a`. */
  lemma DivBound(a: nat, n: nat, i: nat)
    requires n > 0
    requires i < a / n
    ensures n * i + n <= a
  {
    var d := a / n;
    assert a == d * n + a % n;
    MulMonotone(i + 1, d, n);
    assert (i + 1) * n == i * n + n;
  }

  lemma DivStep(a: nat, n: nat)
    requires 0 < n <= a
    ensures (a - n) / n + 1 == a / n
  {
    var q := (a - n) / n;
    assert a - n == q * n + (a - n) % n;
    assert (q + 1) * n == q * n + n;
    DivUnique(a, n, q + 1);
  }
}
