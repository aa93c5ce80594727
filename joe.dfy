/**
 * The integer skeleton of `main`, restated as a sequential program: every
 * rank fills its own row-major buffer, the buffers are gathered into the
 * coordinator's buffer in rank order, the coordinator copies that buffer
 * into the image and then computes the remainder rows itself.
 *
 * Pixel values are the abstract field F(row, col) of module Layout.
 */
module Joe {

  import opened Arith
  import opened Partition
  import opened Layout

  /**
   * The column loop of one row: write F(i, j) at `count + j` for every
   * column j; the entries before `count` and from `count + width` on keep
   * their values.
   */
  method FillRow(sentdata: array<real>, count: nat, i: nat, width: nat, F: Field)
    requires count + width <= sentdata.Length
    modifies sentdata
    ensures sentdata[..count] == old(sentdata[..count])
    ensures sentdata[count..count + width] == Row(F, i, width)
    ensures sentdata[count + width..] == old(sentdata[count + width..])
  {
    for j := 0 to width
      invariant sentdata[..count] == old(sentdata[..count])
      invariant sentdata[count..count + j] == Row(F, i, width)[..j]
      invariant sentdata[count + width..] == old(sentdata[count + width..])
    {
      sentdata[count + j] := F(i, j);
    }
  }

  /**
   * The loop of rank p, given N = height / P: allocate `sentdata` with
   * N * width entries and fill row after row of the rank's block, moving
   * the running offset `count` on by `width` per row. At the start of row i
   * the offset is (i - p * N) * width, so every write is in bounds, and the
   * buffer ends up holding the block in row-major order.
   */
  method FillWorker(p: nat, N: nat, width: nat, F: Field) returns (sentdata: array<real>)
    ensures fresh(sentdata)
    ensures sentdata.Length == N * width
    ensures sentdata[..] == Block(F, p * N, N, width)
  {
    sentdata := new real[N * width];
    var lo := p * N;
    MulSucc(p, N);
    var count := 0;
    for i := p * N to (p + 1) * N
      invariant count == (i - lo) * width <= N * width
      invariant sentdata[..count] == Block(F, lo, i - lo, width)
    {
      RowFits(i - lo, N, width);
      MulSucc(i - lo, width);
      FillRow(sentdata, count, i, width, F);
      BlockExtend(sentdata[..], F, lo, i - lo, width, count);
      count := count + width;
    }
    assert sentdata[..] == sentdata[..count];
  }

  /**
   * `MPI_Gather` at the root, as a sequential copy: the message of rank q,
   * of L entries, lands at offset q * L of `recvdata`; the entries after
   * the last block are left as they were.
   */
  method Gather(msgs: seq<seq<real>>, L: nat, recvdata: array<real>)
    requires forall q :: 0 <= q < |msgs| ==> |msgs[q]| == L
    requires |msgs| * L <= recvdata.Length
    modifies recvdata
    ensures recvdata[..|msgs| * L] == Concat(msgs)
    ensures recvdata[|msgs| * L..] == old(recvdata[|msgs| * L..])
  {
    var P := |msgs|;
    for q := 0 to P
      invariant q * L <= P * L
      invariant recvdata[..q * L] == Concat(msgs[..q])
      invariant recvdata[P * L..] == old(recvdata[P * L..])
    {
      RowFits(q, P, L);
      for k := 0 to L
        invariant recvdata[..q * L] == Concat(msgs[..q])
        invariant forall c :: 0 <= c < k ==> recvdata[q * L + c] == msgs[q][c]
        invariant recvdata[P * L..] == old(recvdata[P * L..])
      {
        recvdata[q * L + k] := msgs[q][k];
      }
      assert msgs[..q + 1][..q] == msgs[..q];
      assert recvdata[..q * L + L] == recvdata[..q * L] + msgs[q];
      MulSucc(q, L);
    }
    assert msgs[..P] == msgs;
  }

  /**
   * Row i of the image is entries [i * width, (i + 1) * width) of the
   * coordinator's buffer.
   */
  ghost predicate RowCopied(recvdata: array<real>, img: array2<real>, i: nat)
    reads recvdata, img
  {
    var width := img.Length1;
    i < img.Length0 && i * width + width <= recvdata.Length &&
    forall j :: 0 <= j < width ==> img[i, j] == recvdata[i * width + j]
  }

  /**
   * The first render pass: every pixel (i, j) of the image receives entry
   * i * width + j of the coordinator's buffer.
   */
  method RenderGathered(recvdata: array<real>, img: array2<real>)
    requires img.Length0 * img.Length1 <= recvdata.Length
    modifies img
    ensures forall i :: 0 <= i < img.Length0 ==> RowCopied(recvdata, img, i)
  {
    var height, width := img.Length0, img.Length1;
    for i := 0 to height
      invariant forall r :: 0 <= r < i ==> RowCopied(recvdata, img, r)
    {
      RowFits(i, height, width);
      for j := 0 to width
        invariant forall r :: 0 <= r < i ==> RowCopied(recvdata, img, r)
        invariant forall c :: 0 <= c < j ==> img[i, c] == recvdata[i * width + c]
      {
        img[i, j] := recvdata[j + i * width];
      }
    }
  }

  /**
   * The remainder loop: rank 0 computes the rows [start, height) itself
   * and overwrites what the first render pass put there; the rows above
   * `start` keep their values.
   */
  method RenderRemainder(img: array2<real>, start: nat, F: Field)
    modifies img
    ensures forall i, j :: 0 <= i < img.Length0 && 0 <= j < img.Length1 ==>
      img[i, j] == if start <= i then F(i, j) else old(img[i, j])
  {
    var height, width := img.Length0, img.Length1;
    var i := start;
    while i < height
      invariant start <= i
      invariant forall r, c :: 0 <= r < height && 0 <= c < width ==>
        img[r, c] == if start <= r < i then F(r, c) else old(img[r, c])
    {
      for j := 0 to width
        invariant forall r, c :: 0 <= r < height && 0 <= c < width ==>
          img[r, c] == if start <= r < i || (r == i && c < j) then F(r, c) else old(img[r, c])
      {
        img[i, j] := F(i, j);
      }
      i := i + 1;
    }
  }

  /**
   * The compute phase of all P ranks, one after the other: rank p fills its
   * buffer and sends its contents, so the messages are exactly the blocks
   * of rows [p * N, (p + 1) * N) of the field.
   */
  method RunWorkers(height: nat, width: nat, P: nat, F: Field) returns (msgs: seq<seq<real>>)
    requires P > 0
    ensures msgs == Messages(F, RowsPerWorker(height, P), P, width)
  {
    var N := RowsPerWorker(height, P);
    msgs := [];
    for p := 0 to P
      invariant msgs == Messages(F, N, p, width)
    {
      var sentdata := FillWorker(p, N, width, F);
      msgs := msgs + [sentdata[..]];
    }
  }

  /**
   * When the first R rows of the coordinator's buffer hold the field in
   * row-major order, the first render pass puts the field into those rows
   * of the image.
   */
  lemma GatheredRowsHoldField(recvdata: array<real>, img: array2<real>, F: Field, R: nat)
    requires R <= img.Length0 && R * img.Length1 <= recvdata.Length
    requires forall i :: 0 <= i < img.Length0 ==> RowCopied(recvdata, img, i)
    requires recvdata[..R * img.Length1] == Block(F, 0, R, img.Length1)
    ensures forall i, j :: 0 <= i < R && 0 <= j < img.Length1 ==> img[i, j] == F(i, j)
  {
    var width := img.Length1;
    forall i, j | 0 <= i < R && 0 <= j < width
      ensures img[i, j] == F(i, j)
    {
      assert RowCopied(recvdata, img, i);
      BlockAt(F, 0, R, width, i, j);
      assert recvdata[..R * width][i * width + j] == recvdata[i * width + j];
    }
  }

  /**
   * The whole computation on P ranks. Rank 0's buffer holds rows
   * [0, P * N) in row-major order, and every pixel of the image, whichever
   * producer computed it, is F(row, col): the image does not depend on P.
   */
  method Run(height: nat, width: nat, P: nat, F: Field) returns (recvdata: array<real>, img: array2<real>)
    requires P > 0
    ensures fresh(recvdata) && fresh(img)
    ensures recvdata.Length == height * width
    ensures P * RowsPerWorker(height, P) * width <= recvdata.Length
    ensures recvdata[..P * RowsPerWorker(height, P) * width] == Block(F, 0, P * RowsPerWorker(height, P), width)
    ensures img.Length0 == height && img.Length1 == width
    ensures forall i, j :: 0 <= i < height && 0 <= j < width ==> img[i, j] == F(i, j)
  {
    var N := RowsPerWorker(height, P);
    recvdata := new real[height * width];
    var msgs := RunWorkers(height, width, P, F);
    MulLe(P * N, height, width);
    MulAssoc(P, N, width);
    Gather(msgs, N * width, recvdata);
    GatherAssembles(F, N, P, width);

    img := new real[height, width];
    RenderGathered(recvdata, img);
    GatheredRowsHoldField(recvdata, img, F, P * N);
    RenderRemainder(img, P * N, F);
  }
}
