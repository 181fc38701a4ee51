# FAST sample generator (SALib) in Dafny

This project models the sample generator of the Fourier Amplitude
Sensitivity Test (FAST) from SALib, `sample(problem, N, M=4)` in
`SALib/sample/fast_sampler.py`, up to the point where the unit-hypercube
matrix is handed to the distribution scalers. It also proves properties of
that model.

The generator works in four steps:

1. It rejects a sample size N <= 4M² with an invalid-argument error before
   doing any work.
2. It assigns the frequency vector omega of length D:
   - omega[0] = floor((N - 1) / 2M) is the frequency of the swept parameter.
   - m = floor(omega[0] / 2M).
   - The D - 1 complementary frequencies are the floors of D - 1 evenly
     spaced points from 1 to m when m >= D - 1.
   - Otherwise they are `(k mod m) + 1`.
3. For each block i = 0 .. D - 1, it overwrites the one reused buffer omega2
   in place. Position i gets omega[0]. The other positions get omega[1..] in
   order.
4. For each block it draws one random phase. It then writes column j of rows
   i·N .. (i+1)·N - 1 of the zero-initialised N·D × D matrix X. The value is
   the search-curve transform of frequency omega2[j] at the N grid points
   with that phase.

Layout of the project:

- `frequencies.dfy` (module `FrequencyAssignment`) holds step 2 as pure
  functions, with lemmas for:
  - the entry condition giving m >= 1, so the cyclic branch never takes a
    remainder modulo zero;
  - the shape of both branches;
  - the separation omega[0] >= 2M·m >= 2M·omega[k].
- `rotation.dfy` (module `Rotation`) holds the index list `idx`, the
  per-block assignment `Rotated`, and the in-place method `Rotate` on the
  reused buffer.
- `layout.dfy` (module `Layout`) holds the row-block arithmetic of X.
- `fast_sampler.dfy` (module `FastSampler`) holds the imperative part:
  - the random source (`PhaseSource`);
  - the column, block and all-blocks loops over the `array2<real>` X;
  - the entry point `Sample`, which returns a `Result` carrying
    `SampleSizeTooSmall` on the error path.
- `arith.dfy` (module `Arith`) holds helper lemmas on multiplication and
  Euclidean division. All quantities in the frequency arithmetic are
  non-negative, so the floor of Python's true division and Dafny's division
  agree.

Two external things become parameters:

- **The search-curve transform.** `0.5 + arcsin(sin(omega2[j]·s[k] + phi))/pi`
  with `s[k] = 2·pi·k/N` and `phi = 2·pi·u` becomes a total function
  `g(freq, k, u)`. The model proves where each value goes and which
  frequency, grid point and draw it uses. It does not model the
  floating-point value.
- **`np.random.rand()`.** This becomes a `PhaseSource` object. It holds the
  stream of values that the caller's seed fixes and a counter of draws
  taken. `Sample` takes exactly D draws, one per block in block order, and
  none on the error path.

The docstring of `sample` (lines 15-16) says the result has N rows. The code
allocates and fills N·D rows (line 49). The model follows the code.

## Model

| member | source | states |
|---|---|---|
| `FrequencyAssignment.BaseFrequency` | SALib/sample/fast_sampler.py:37 | omega[0] is the floor of (N-1)/2M: the unique w0 >= 0 with 2M·w0 <= N-1 < 2M·w0 + 2M |
| `FrequencyAssignment.HarmonicLimit` | SALib/sample/fast_sampler.py:38 | m is the floor of omega[0]/2M: the unique m >= 0 with 2M·m <= omega[0] < 2M·m + 2M |
| `FrequencyAssignment.EvenlySpaced` | SALib/sample/fast_sampler.py:41 | floor(linspace(1, m, count)) has exactly count entries |
| `FrequencyAssignment.Cyclic` | SALib/sample/fast_sampler.py:43 | arange(count) % m + 1 has exactly count entries and is defined only for m >= 1 |
| `FrequencyAssignment.Frequencies` | SALib/sample/fast_sampler.py:36-43 | omega has length D and omega[0] >= 2M whenever N > 4M² |
| `FrequencyAssignment.LimitPositive` | SALib/sample/fast_sampler.py:30-38 | N > 4M² implies omega[0] >= 2M and m >= 1, so the remainder modulo m on line 43 never divides by zero |
| `FrequencyAssignment.EvenlySpacedPoint` | SALib/sample/fast_sampler.py:41 | when 2 <= count <= m, each evenly spaced point lies in 1..m |
| `FrequencyAssignment.EvenlySpacedEnds` | SALib/sample/fast_sampler.py:41 | when 2 <= count <= m, the first point is 1 and the last is m |
| `FrequencyAssignment.EvenlySpacedStep` | SALib/sample/fast_sampler.py:41 | when count <= m, a later point is strictly greater than an earlier one |
| `FrequencyAssignment.EvenlySpacedShape` | SALib/sample/fast_sampler.py:41 | for 1 <= count <= m the points start at 1, end at m (count >= 2), lie in 1..m and are strictly increasing |
| `FrequencyAssignment.CyclicShape` | SALib/sample/fast_sampler.py:43 | the cyclic frequencies lie in 1..m and repeat with period m |
| `FrequencyAssignment.CyclicTail` | SALib/sample/fast_sampler.py:42-43 | when m < D-1, m >= 1 and omega[1..] is the cyclic sequence |
| `FrequencyAssignment.CyclicBranch` | SALib/sample/fast_sampler.py:42-43 | when m < D-1, omega[k] = ((k-1) mod m) + 1 for every k >= 1, lies in 1..m, and omega[k+m] = omega[k] |
| `FrequencyAssignment.EvenlySpacedTail` | SALib/sample/fast_sampler.py:40-41 | when m >= D-1, omega[1..] is the evenly spaced sequence |
| `FrequencyAssignment.EvenlySpacedBranch` | SALib/sample/fast_sampler.py:40-41 | when m >= D-1 and D >= 2: omega[1] = 1, omega[D-1] = m if D >= 3, every omega[k] lies in 1..m, and they strictly increase (so they are pairwise distinct) |
| `FrequencyAssignment.BaseDominates` | SALib/sample/fast_sampler.py:37-43 | omega[0] >= 2M·m, and every complementary frequency is in 1..m, has 2M·omega[k] <= omega[0], has M·omega[k] < omega[0], and is below omega[0] |
| `FrequencyAssignment.Dominates` | SALib/sample/fast_sampler.py:37-43 | a frequency f in 1..m with 2M·m <= omega[0] has 2M·f <= omega[0], M·f < omega[0] and f < omega[0] |
| `FrequencyAssignment.SmallExample` | SALib/sample/fast_sampler.py:36-43 | N=100, M=4, D=3 gives m = 1 and omega = [12, 1, 1] |
| `FrequencyAssignment.LargeExample` | SALib/sample/fast_sampler.py:36-43 | N=4100, M=4, D=10 gives m = 64 and omega = [512, 1, 8, 16, 24, 32, 40, 48, 56, 64] |
| `Rotation.OtherPositions` | SALib/sample/fast_sampler.py:54 | idx has D-1 entries and lists every position except i in increasing order: entry q is q before i and q+1 from i on |
| `Rotation.OtherPositionsCover` | SALib/sample/fast_sampler.py:54 | every position p != i occurs in idx |
| `Rotation.Rotated` | SALib/sample/fast_sampler.py:52-55 | block i's frequency assignment has length D |
| `Rotation.RotatedAt` | SALib/sample/fast_sampler.py:53-55 | in block i, position j gets omega[j+1] for j < i, omega[0] for j = i, and omega[j] for j > i |
| `Rotation.RotatedScatter` | SALib/sample/fast_sampler.py:54-55 | the slice assignment omega2[idx] = omega[1:] puts omega[q+1] at position idx[q] |
| `Rotation.RotatedIsPermutation` | SALib/sample/fast_sampler.py:52-55 | every block's assignment is a permutation of omega |
| `Rotation.Rotate` | SALib/sample/fast_sampler.py:50-55 | writing the reused buffer in place leaves exactly block i's assignment in it, whatever earlier blocks left there |
| `Layout.BlockRow` | SALib/sample/fast_sampler.py:56 | row k of block i is row i·N + k < N·D, and its block and offset are its quotient and remainder by N |
| `Layout.RowBlock` | SALib/sample/fast_sampler.py:49-56 | every row r < N·D lies in block r / N < D and in no other block |
| `Layout.BlocksOrdered` | SALib/sample/fast_sampler.py:56 | the row ranges of the blocks are ascending and disjoint |
| `FastSampler.PhaseSource.Draw` | SALib/sample/fast_sampler.py:60 | a draw returns the next value of the seeded stream and advances the counter by one |
| `FastSampler.CoversUnion` | SALib/sample/fast_sampler.py:56-64 | the cells written for two adjacent row ranges are disjoint, and together they cover both ranges |
| `FastSampler.FillColumn` | SALib/sample/fast_sampler.py:63-64 | X[l, j] = g writes column j of rows row0..row0+N-1 with the curve at grid points 0..N-1 and changes no other cell |
| `FastSampler.FillBlock` | SALib/sample/fast_sampler.py:62-64 | the column loop of one block fills every column of its N rows with frequency omega2[j], the cells it writes are exactly the block's cells, and other rows are unchanged |
| `FastSampler.SweepBlock` | SALib/sample/fast_sampler.py:52-64 | one iteration leaves block i's assignment Rotated(omega, i) in omega2, takes exactly one draw, fills exactly block i's rows, extends the filled prefix and the written cells by that block, and changes no other row |
| `FastSampler.FillBlocks` | SALib/sample/fast_sampler.py:49-64 | the block loop takes D draws, writes every cell of X exactly once with the value that `Cell` gives, and leaves the last block's assignment in omega2 |
| `FastSampler.Sample` | SALib/sample/fast_sampler.py:30-64 | fails with SampleSizeTooSmall, drawing nothing, iff N <= 4M². Otherwise it returns a fresh N·D × D matrix, draws exactly D phases, and every cell holds its block's curve value |
| `FastSampler.CellInBlock` | SALib/sample/fast_sampler.py:56-64 | cell (i·N + k, j) lies inside X and holds g(Rotated(omega, i)[j], k, draw i): block i's frequency for column j, grid point k, and the i-th phase in block order |
| `FastSampler.SweptColumnDominates` | SALib/sample/fast_sampler.py:37-55 | in block i, column i carries omega[0], and every other column's frequency f is at least 1 with 2M·f <= omega[0] |

## Left out

- The distribution-scaling branch (lines 67-82) is not modelled. This covers `scale_samples`, `checkBounds`, `limit_samples` and `nonuniform_scale_samples`. They live in `SALib.util`, which is not part of this model, and they are floating-point inverse-CDF numerics. So the problem's `bounds` and `dists` do not appear: the model takes D = `problem['num_vars']` directly.
- The command-line entry point (lines 84-99) is not modelled: it is argument parsing, seeding and file I/O.
- FastSampler.Sample: does not state that entries lie in [0, 1], because the transform is floating-point trigonometry and is a parameter `g` here.
- FastSampler.Sample: models `np.random.rand()` as a seeded stream given by the caller. It also does not state that draws lie in [0, 1), because that is a property of NumPy's generator.
- FrequencyAssignment.EvenlySpaced: computes the points of `np.linspace` with exact integer arithmetic. The float rounding of `np.linspace` could move a point sitting exactly on an integer to just below it.
- FrequencyAssignment.BaseFrequency: assumes the float true division and `math.floor` at lines 37-38 are exact. This fails only for N beyond 2^53.
- FastSampler.Sample: requires M >= 1 and D >= 1 and does not model other values. The source raises ZeroDivisionError for M = 0 with N > 0, and IndexError at `omega[0]` for D = 0. For negative M it computes meaningless frequencies.
- The constant column for a zero frequency is not modelled because it cannot arise here. `BaseDominates` shows that every frequency is at least 1 once N > 4M².
