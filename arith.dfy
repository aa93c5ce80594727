/**
 * Small facts of integer arithmetic used by the row partition and the
 * row-major layout, each proved on its own so that the proofs that use
 * them do not have to reason about products.
 */
module Arith {

  /** a * n <= b * n when a <= b. */
  lemma MulLe(a: nat, b: nat, n: nat)
    requires a <= b
    ensures a * n <= b * n
  {
    assert b * n == a * n + (b - a) * n;
  }

  /** (a + 1) * b == a * b + b. */
  lemma MulSucc(a: nat, b: nat)
    ensures (a + 1) * b == a * b + b
  {
  }

  /** a * (b * c) == a * b * c. */
  lemma MulAssoc(a: nat, b: nat, c: nat)
    ensures a * (b * c) == a * b * c
  {
  }

  /** The row after row r < n still fits: r * w + w <= n * w. */
  lemma RowFits(r: nat, n: nat, w: nat)
    requires r < n
    ensures r * w + w <= n * w
  {
    MulSucc(r, w);
    MulLe(r + 1, n, w);
  }

  /** For i < P * N: N > 0, i / N < P and i == (i / N) * N + i % N. */
  lemma DivBelow(i: nat, N: nat, P: nat)
    requires i < P * N
    ensures N > 0 && i / N < P && (i / N) * N + i % N == i && i % N < N
  {
    if i / N >= P {
      MulLe(P, i / N, N);
    }
  }
}
