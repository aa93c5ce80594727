/**
 * Row-major layout of the scalar field. The value of pixel (row, col) is
 * an abstract function F(row, col); a block of rows is stored row after
 * row, and the coordinator's buffer is the blocks of the ranks one after
 * the other.
 */
module Layout {

  import opened Arith

  /** The field of pixel values: F(row, col). */
  type Field = (nat, nat) -> real

  /** Row r of the field, columns [0, w). */
  function Row(F: Field, r: nat, w: nat): (s: seq<real>)
    ensures |s| == w
    ensures forall c :: 0 <= c < w ==> s[c] == F(r, c)
  {
    seq(w, c requires 0 <= c < w => F(r, c))
  }

  /** Rows [r0, r0 + n) of the field in row-major order. */
  function Block(F: Field, r0: nat, n: nat, w: nat): (s: seq<real>)
    ensures |s| == n * w
  {
    if n == 0 then [] else Block(F, r0, n - 1, w) + Row(F, r0 + n - 1, w)
  }

  /** The buffers of several ranks, one after the other. */
  function Concat(bs: seq<seq<real>>): seq<real>
  {
    if bs == [] then [] else Concat(bs[..|bs| - 1]) + bs[|bs| - 1]
  }

  /** The P messages of the ranks: rank q sends its N rows from q * N on. */
  function Messages(F: Field, N: nat, P: nat, w: nat): (ms: seq<seq<real>>)
    ensures |ms| == P
    ensures forall q :: 0 <= q < P ==> |ms[q]| == N * w
  {
    seq(P, q requires 0 <= q < P => Block(F, q * N, N, w))
  }

  /**
   * Row-major addressing: entry i * w + j of a block holds F(r0 + i, j),
   * and it is in bounds.
   */
  lemma {:induction false} BlockAt(F: Field, r0: nat, n: nat, w: nat, i: nat, j: nat)
    requires i < n && j < w
    ensures i * w + j < n * w
    ensures Block(F, r0, n, w)[i * w + j] == F(r0 + i, j)
  {
    RowFits(i, n, w);
    if i < n - 1 {
      BlockAt(F, r0, n - 1, w, i, j);
    } else {
      assert (n - 1) * w == i * w;
    }
  }

  /**
   * A buffer that holds rows [r0, r0 + n) followed by row r0 + n holds the
   * block of n + 1 rows.
   */
  lemma BlockExtend(s: seq<real>, F: Field, r0: nat, n: nat, w: nat, count: nat)
    requires count + w <= |s| && s[..count] == Block(F, r0, n, w)
    requires s[count..count + w] == Row(F, r0 + n, w)
    ensures s[..count + w] == Block(F, r0, n + 1, w)
  {
    assert s[..count + w] == s[..count] + s[count..count + w];
  }

  /** Two adjacent blocks together form one block. */
  lemma {:induction false} BlockAppend(F: Field, r0: nat, n: nat, m: nat, w: nat)
    ensures Block(F, r0, n, w) + Block(F, r0 + n, m, w) == Block(F, r0, n + m, w)
  {
    if m > 0 {
      BlockAppend(F, r0, n, m - 1, w);
      assert r0 + n + (m - 1) == r0 + (n + m) - 1;
    }
  }

  /**
   * Gathering: the messages of ranks 0 .. P-1 laid end to end are exactly
   * the rows [0, P * N) of the field in row-major order.
   */
  lemma {:induction false} GatherAssembles(F: Field, N: nat, P: nat, w: nat)
    ensures Concat(Messages(F, N, P, w)) == Block(F, 0, P * N, w)
  {
    if P > 0 {
      var ms := Messages(F, N, P, w);
      var k := (P - 1) * N;
      MulSucc(P - 1, N);
      assert ms[..P - 1] == Messages(F, N, P - 1, w);
      assert ms[P - 1] == Block(F, k, N, w);
      GatherAssembles(F, N, P - 1, w);
      BlockAppend(F, 0, k, N, w);
    }
  }

  /** Entry k of buffer s exists and holds v. */
  predicate HoldsAt(s: seq<real>, k: int, v: real)
  {
    0 <= k < |s| && s[k] == v
  }

  /** Entry r * w + j of rank q's message holds F(q * N + r, j). */
  lemma MessageAt(F: Field, N: nat, P: nat, w: nat, q: nat, r: nat, j: nat)
    requires q < P && r < N && j < w
    ensures HoldsAt(Messages(F, N, P, w)[q], r * w + j, F(q * N + r, j))
  {
    assert Messages(F, N, P, w)[q] == Block(F, q * N, N, w);
    BlockAt(F, q * N, N, w, r, j);
  }

  /** Entry i * w + j of the gathered buffer holds F(i, j). */
  lemma ConcatAt(F: Field, N: nat, P: nat, w: nat, i: nat, j: nat)
    requires i < P * N && j < w
    ensures HoldsAt(Concat(Messages(F, N, P, w)), i * w + j, F(i, j))
  {
    GatherAssembles(F, N, P, w);
    BlockAt(F, 0, P * N, w, i, j);
  }

  /** Entry (i % N) * w + j of rank i / N's message holds F(i, j). */
  lemma MessageRowAt(F: Field, N: nat, P: nat, w: nat, i: nat, j: nat)
    requires i < P * N && j < w
    ensures N > 0 && i / N < P
    ensures HoldsAt(Messages(F, N, P, w)[i / N], (i % N) * w + j, F(i, j))
  {
    var q, r := i / N, i % N;
    DivBelow(i, N, P);
    MessageAt(F, N, P, w, q, r, j);
  }

  /**
   * After the gather, entry i * w + j with i < P * N holds the value that
   * rank i / N stored at its local offset (i % N) * w + j, which is the
   * field value of global row i, column j.
   */
  lemma GatheredAt(F: Field, N: nat, P: nat, w: nat, i: nat, j: nat)
    requires i < P * N && j < w
    ensures N > 0 && i / N < P
    ensures HoldsAt(Concat(Messages(F, N, P, w)), i * w + j, F(i, j))
    ensures HoldsAt(Messages(F, N, P, w)[i / N], (i % N) * w + j, F(i, j))
  {
    ConcatAt(F, N, P, w, i, j);
    MessageRowAt(F, N, P, w, i, j);
  }
}
