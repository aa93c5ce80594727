# Parallel Mandelbrot ("Joe's algorithm"): the index skeleton

`part2/mandelbrot_joe.cc` computes an escape-time image on P MPI ranks.
With `N = height / P`, rank p computes the rows `[p*N, (p+1)*N)` into its
own row-major buffer `sentdata`. `MPI_Gather` collects the buffers on
rank 0 into `recvdata`. Rank 0 copies `recvdata` into the image. It then
computes the remainder rows `[P*N, height)` by itself, overwriting those
rows of the image.

This project models that program as a sequential Dafny program over arrays
and proves:

- the row partition is correct;
- every buffer access is in bounds;
- the running offset `count` gives the global `i*width + j` layout;
- the gather puts every block in its right place;
- every row of the image is produced exactly once;
- the degenerate case `P > height` is safe.

It also models the counter loop of `mandelbrot`, over an uninterpreted
recurrence and an uninterpreted escape test.

Modules:

- `Escape` (escape.dfy): `mandelbrot` as a loop over an abstract orbit
  state. `step(z, c)` stands for the recurrence and `inside(z)` for the test
  `x*x + y*y < 4`. The orbit is seeded at the constant `c` itself, as the
  source does. `EscapeTime` is an independent recursive definition of the
  count. Lemmas say what the count means and that it is unique.
- `Partition` (partition.dfy): `N = height / P`, the rank blocks, and who
  produces each row (`Producer`: a rank, or the remainder loop of rank 0).
- `Layout` (layout.dfy): the row-major contents of buffers. `Block` is a
  range of rows of the pixel field `F(row, col)`. `Concat` is buffers laid
  end to end. `Messages` is what the P ranks send. The lemmas relate local
  offsets, the gathered buffer and the global layout.
- `Joe` (joe.dfy): the imperative skeleton of `main`:
  - the worker loop, filling an `array` through `count`;
  - the gather, as a copy loop into `recvdata`;
  - the two render passes into an `array2` image;
  - `Run`, which puts them together.
- `Arith` (arith.dfy): small product and division facts, each proved on its
  own.

Pixel values are an abstract field `F: (nat, nat) -> real`, indexed by
global row and column. No floating-point behaviour is claimed. The image is
an `array2<real>` indexed `[row, col]` that receives the scalar values.

Two points about the code that the model follows:

- The code passes `recvdata + p*N` as the receive buffer, which is an
  offset of `p*N` doubles, not `p*N*width`. Only the root's receive buffer
  is used by `MPI_Gather`, and the root is rank 0, so that offset is 0.
  Standard gather semantics then place rank q's `N*width` entries at
  `q*N*width`. `Joe.Gather` models exactly that.
- In the first render pass, the code reads the entries of `recvdata` for
  rows `[P*N, height)`, which nothing has written (memory from `malloc`).
  The model reads Dafny's default-initialised entries there. It claims
  nothing about those values; `Joe.RenderRemainder` then overwrites those
  rows, matching the code.

## Model

| member | source | states |
|---|---|---|
| `Escape.Mandelbrot` | part2/mandelbrot_joe.cc:20-35 | the returned count is in [0, 511]; it is 0 when the seed already fails the magnitude test; every orbit point before the count passes the test; below the cap, the point at the count fails it; the count equals the reference `EscapeTime` |
| `Escape.EscapeTime` | part2/mandelbrot_joe.cc:27-34 | reference escape count from an orbit point; never more than the iteration budget |
| `Escape.EscapeTimeMeaning` | part2/mandelbrot_joe.cc:28 | the reference count from the k-th orbit point: all points before it are inside, and unless the budget ran out the point at it is outside |
| `Escape.EscapeTimeUnique` | part2/mandelbrot_joe.cc:28-34 | any count within the 511 cap that has those two properties equals the escape count: the loop's exit condition determines its result |
| `Partition.RowsPerWorker` | part2/mandelbrot_joe.cc:72 | `N = height/P` satisfies `P*N <= height`; the rows left over number `height mod P`, fewer than P; `N == 0` when `P > height` |
| `Partition.BlocksDisjoint` | part2/mandelbrot_joe.cc:82 | the row ranges `[p*N, (p+1)*N)` of two different ranks share no row |
| `Partition.BlockWithinPrefix` | part2/mandelbrot_joe.cc:82 | every row of a rank q < P lies below `P*N` |
| `Partition.OwnerOfRow` | part2/mandelbrot_joe.cc:82 | a row below `P*N` lies in the block of rank `row / N`, that rank is below P, and `N > 0` |
| `Partition.BlocksCoverPrefix` | part2/mandelbrot_joe.cc:82 | a row is below `P*N` if and only if some rank p < P has it in its block: the blocks together are exactly `[0, P*N)` |
| `Partition.ProducerOf` | part2/mandelbrot_joe.cc:82-119 | a row is a remainder row if and only if it is at or above `P*N`; otherwise its producer is a rank below P whose block contains it |
| `Partition.ProducedExactlyOnce` | part2/mandelbrot_joe.cc:82-119 | the set of producers that write a row in `[0, height)` (ranks whose loop visits it, plus the remainder loop) has exactly one element |
| `Partition.Degenerate` | part2/mandelbrot_joe.cc:72-82 | when `P > height`: `N == 0`, no rank's loop visits any row, and every row is a remainder row |
| `Layout.Block` | part2/mandelbrot_joe.cc:78 | a block of n rows of width w has `n*w` entries, the size allocated for `sentdata` |
| `Layout.BlockAt` | part2/mandelbrot_joe.cc:86 | local offset `i*w + j` of a block is in bounds and holds the field value of row `r0 + i`, column j |
| `Layout.BlockExtend` | part2/mandelbrot_joe.cc:85-89 | a buffer holding n rows of a block, followed by the next row at offset `count`, holds n + 1 rows |
| `Layout.BlockAppend` | part2/mandelbrot_joe.cc:93 | two adjacent blocks laid end to end form the combined block |
| `Layout.GatherAssembles` | part2/mandelbrot_joe.cc:93 | the P ranks' messages laid end to end in rank order are exactly rows `[0, P*N)` of the field in row-major order |
| `Layout.GatheredAt` | part2/mandelbrot_joe.cc:86-106 | for `i < P*N` and `j < w`: entry `i*w + j` of the gathered buffer holds `F(i, j)`, which rank `i / N` (a rank below P) stored at its local offset `(i mod N)*w + j` |
| `Joe.FillRow` | part2/mandelbrot_joe.cc:85-88 | the column loop writes row i of the field at `[count, count + width)` and leaves every other entry (before `count` and from `count + width` on) unchanged |
| `Joe.FillWorker` | part2/mandelbrot_joe.cc:78-91 | allocates `N*width` entries; `count == (i - p*N)*width` at the start of each row, so every write is in bounds; the buffer ends up holding rank p's block in row-major order |
| `Joe.RunWorkers` | part2/mandelbrot_joe.cc:72-91 | the compute phase of ranks 0 .. P-1 sends exactly the P blocks `Messages(F, N, P, width)` |
| `Joe.Gather` | part2/mandelbrot_joe.cc:93 | message q of length L lands at `[q*L, (q+1)*L)` of `recvdata`, so the first `P*L` entries are the messages in rank order; later entries are unchanged |
| `Joe.RenderGathered` | part2/mandelbrot_joe.cc:104-108 | every image pixel (i, j) receives entry `i*width + j` of `recvdata`, which is in bounds |
| `Joe.RenderRemainder` | part2/mandelbrot_joe.cc:110-119 | rows at or above `P*N` receive the field values; they overwrite the first pass. Rows below `P*N` keep their values; `P*N > height` is handled as an empty loop |
| `Joe.GatheredRowsHoldField` | part2/mandelbrot_joe.cc:104-108 | if `recvdata` holds the first R rows in row-major order, the first render pass puts the field into those rows of the image |
| `Joe.Run` | part2/mandelbrot_joe.cc:72-119 | `recvdata` has `height*width` entries; its first `P*N*width` entries are rows `[0, P*N)` in row-major order; every image pixel (i, j) is `F(i, j)`, so the image does not depend on P |

## Left out

- MPI runtime: `MPI_Init`, the rank and size queries, `MPI_Barrier` and
  `MPI_Finalize` are process concurrency. The ranks run one after the other
  in `Joe.RunWorkers`. Each rank's message is a copy of the contents of its
  buffer, and the gather is a sequential copy. Arrival order and blocking
  are not modelled.
- Timing with `MPI_Wtime` and its `printf` are I/O.
- Floating-point numerics are not modelled:
  - the recurrence `x*x - y*y + cx`, `2*x*y + cy` is the uninterpreted
    `step`;
  - the magnitude test is the uninterpreted `inside`;
  - the coordinate steps `it`, `jt` and their accumulation `x += jt`,
    `y += it` are left out;
  - the division by 512.0 is left out.

  The pixel value is the abstract `F(row, col)`. Because the float sums
  start from a different row for each block, the real program's values can
  differ in the last bits between different P. The model claims
  independence of P only at the index level.
- `Escape.Mandelbrot` is not connected to `F`: the pixel field is abstract,
  so the model does not state that `F(i, j)` is `mandelbrot(x, y) / 512.0`.
- Rendering and PNG output: `render`, `gil::rgb8_image_t`, `gil::view` and
  `png_write_view` come from `render.hh` and Boost.GIL. Those are not part
  of this model.
- Image shape: the model's image is `new real[height, width]` indexed
  `[row, col]`, the intended shape. The source builds
  `gil::rgb8_image_t img(height, width)` (part2/mandelbrot_joe.cc:100) and
  writes `img_view(j, i)` with `j < width`, `i < height` (:106, :114). If
  GIL's constructor takes `(width, height)`, the
  source's image is `height` wide and `width` tall, and these writes go out
  of bounds whenever `height != width`. render.hh and Boost.GIL are not part
  of this model, so this is not proved here. The model's in-bounds claims
  cover `sentdata`, `recvdata` and the model's own image, not the source's
  GIL view.
- Command-line handling (`atoi`, `assert`, `fprintf`, the usage exit) is
  left out. `height` and `width` are parameters; the model also allows 0.
- Allocation: `malloc` is a fresh array of the stated size. Allocation
  failure is not modelled.
- Integer width: index arithmetic is on unbounded integers. The source's
  32-bit `int` products such as `height*width*sizeof(double)` could
  overflow for very large images; the model does not capture that.
- The unused macros `WIDTH` and `HEIGHT` are left out.
