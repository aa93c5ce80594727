/**
 * Row partitioning of `main`: with P ranks, every rank p owns the N =
 * height / P consecutive rows [p*N, (p+1)*N); the rows [P*N, height) that
 * the division leaves over are computed by rank 0 alone after the gather.
 */
module Partition {

  import opened Arith

  /** Who produces a row of the image. */
  datatype Producer =
    | Worker(rank: nat)  // the rank whose block holds the row
    | Remainder          // the remainder loop that rank 0 runs after the gather

  /** `N = height/P`: rows per rank. */
  function RowsPerWorker(height: nat, P: nat): (N: nat)
    requires P > 0
    ensures P * N <= height
    ensures height - P * N == height % P < P
    ensures P > height ==> N == 0
  {
    height / P
  }

  /** Row `row` is one of the rows [p*N, (p+1)*N) of rank p's loop. */
  predicate InBlock(height: nat, P: nat, p: nat, row: nat)
    requires P > 0
  {
    var N := RowsPerWorker(height, P);
    p * N <= row < (p + 1) * N
  }

  /** Two different ranks never share a row. */
  lemma BlocksDisjoint(height: nat, P: nat, p: nat, q: nat, row: nat)
    requires P > 0 && p != q
    requires InBlock(height, P, p, row)
    ensures !InBlock(height, P, q, row)
  {
    var N := RowsPerWorker(height, P);
    if p < q {
      MulLe(p + 1, q, N);
    } else {
      MulLe(q + 1, p, N);
    }
  }

  /** For q < P the block of rank q lies within [0, P*N). */
  lemma BlockWithinPrefix(height: nat, P: nat, q: nat, row: nat)
    requires P > 0 && q < P
    requires InBlock(height, P, q, row)
    ensures row < P * RowsPerWorker(height, P)
  {
    MulLe(q + 1, P, RowsPerWorker(height, P));
  }

  /** A row below P*N lies in the block of rank row / N, and that rank exists. */
  lemma OwnerOfRow(height: nat, P: nat, row: nat)
    requires P > 0
    requires row < P * RowsPerWorker(height, P)
    ensures RowsPerWorker(height, P) > 0
    ensures row / RowsPerWorker(height, P) < P
    ensures InBlock(height, P, row / RowsPerWorker(height, P), row)
  {
    var N := RowsPerWorker(height, P);
    DivBelow(row, N, P);
    assert (row / N + 1) * N == (row / N) * N + N;
  }

  /**
   * The blocks of the P ranks together are exactly the rows [0, P*N).
   */
  lemma BlocksCoverPrefix(height: nat, P: nat, row: nat)
    requires P > 0
    ensures row < P * RowsPerWorker(height, P) <==> exists p :: 0 <= p < P && InBlock(height, P, p, row)
  {
    var N := RowsPerWorker(height, P);
    if row < P * N {
      OwnerOfRow(height, P, row);
      var owner := row / N;
      assert 0 <= owner < P && InBlock(height, P, owner, row);
    } else {
      forall p | 0 <= p < P
        ensures !InBlock(height, P, p, row)
      {
        if InBlock(height, P, p, row) {
          BlockWithinPrefix(height, P, p, row);
        }
      }
    }
  }

  /**
   * The producer of a row: the rank whose block holds it, or the remainder
   * loop for the rows [P*N, height).
   */
  function ProducerOf(height: nat, P: nat, row: nat): (who: Producer)
    requires P > 0 && row < height
    ensures who.Remainder? <==> P * RowsPerWorker(height, P) <= row
    ensures who.Worker? ==> who.rank < P && InBlock(height, P, who.rank, row)
  {
    var N := RowsPerWorker(height, P);
    if row < P * N then
      OwnerOfRow(height, P, row);
      Worker(row / N)
    else
      Remainder
  }

  /**
   * Every producer that writes `row`: each rank whose loop visits it, and
   * the remainder loop when P*N <= row < height.
   */
  function Producers(height: nat, P: nat, row: nat): set<Producer>
    requires P > 0
  {
    var N := RowsPerWorker(height, P);
    (set p | 0 <= p < P && InBlock(height, P, p, row) :: Worker(p))
      + (if P * N <= row < height then {Remainder} else {})
  }

  /** Every image row is produced by exactly one producer. */
  lemma ProducedExactlyOnce(height: nat, P: nat, row: nat)
    requires P > 0 && row < height
    ensures Producers(height, P, row) == {ProducerOf(height, P, row)}
  {
    var N := RowsPerWorker(height, P);
    var who := ProducerOf(height, P, row);
    forall x | x in Producers(height, P, row)
      ensures x == who
    {
      if x.Worker? {
        BlockWithinPrefix(height, P, x.rank, row);
        if x.rank != who.rank {
          BlocksDisjoint(height, P, who.rank, x.rank, row);
        }
      }
    }
    if who.Worker? {
      assert who in (set p | 0 <= p < P && InBlock(height, P, p, row) :: Worker(p));
    }
  }

  /**
   * When P > height, N == 0: no rank's loop visits any row, and every row
   * of the image is a remainder row.
   */
  lemma Degenerate(height: nat, P: nat)
    requires P > height
    ensures RowsPerWorker(height, P) == 0
    ensures forall p, row :: !InBlock(height, P, p, row)
    ensures forall row :: 0 <= row < height ==> ProducerOf(height, P, row) == Remainder
  {
  }
}
