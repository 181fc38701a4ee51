/** The FAST sample generator: after the entry check N > 4M^2 it assigns the
    frequencies, then for each of the D sweep blocks rotates the frequencies
    into the reused buffer omega2, draws one random phase, and fills the N
    rows of that block column by column in the zero-initialised N*D x D
    matrix X. */
module FastSampler {
  import opened FrequencyAssignment
  import opened Rotation
  import opened Layout

  /** The invalid-argument error raised when N <= 4M^2. */
  datatype SampleError = SampleSizeTooSmall(N: int, M: int)

  datatype Result<T> = Success(value: T) | Failure(error: SampleError)

  /** The search-curve transform g(freq, k, u), standing for
      0.5 + arcsin(sin(freq * s[k] + phi)) / pi with s[k] = 2 pi k / N and
      the phase phi = 2 pi u of the draw u. Its floating-point value is not
      modelled; only where it is stored and which arguments it gets. */
  type Transform = (int, nat, real) -> real

  /** The pseudo-random source of the phase draws: the sequence of values
      that the caller's seed fixes, and how many of them have been taken. */
  class PhaseSource {
    const stream: nat -> real
    var drawn: nat

    constructor (stream: nat -> real)
      ensures this.stream == stream && drawn == 0
    {
      this.stream := stream;
      drawn := 0;
    }

    /** One call of np.random.rand(): the next value of the stream. */
    method Draw() returns (u: real)
      modifies this
      ensures drawn == old(drawn) + 1
      ensures u == stream(old(drawn))
    {
      u := stream(drawn);
      drawn := drawn + 1;
    }
  }

  /** What the sampler stores in row r, column c of X when the first phase
      it draws is draw number first: row r is row r % N of block r / N,
      whose frequencies are Rotated(omega, r / N) and whose phase is the
      (r / N)-th draw. */
  ghost function Cell(omega: seq<int>, N: nat, g: Transform, stream: nat -> real, first: nat, r: nat, c: nat): real
    requires 1 <= N && r < N * |omega| && c < |omega|
  {
    assert r / N < |omega| by {
      RowBlock(N, |omega|, r, 0);
    }
    g(Rotated(omega, r / N)[c], r % N, stream(first + r / N))
  }

  /** The set of cells written is exactly rows lo .. hi - 1 of columns
      0 .. cols - 1. */
  ghost predicate Covers(written: set<(nat, nat)>, lo: nat, hi: nat, cols: nat)
  {
    forall r: nat, c: nat :: (r, c) in written <==> lo <= r < hi && c < cols
  }

  /** Two adjacent row ranges are written by disjoint sets of cells whose
      union covers both ranges. */
  lemma CoversUnion(a: set<(nat, nat)>, b: set<(nat, nat)>, lo: nat, mid: nat, hi: nat, cols: nat)
    requires lo <= mid <= hi && Covers(a, lo, mid, cols) && Covers(b, mid, hi, cols)
    ensures a !! b && Covers(a + b, lo, hi, cols)
  {
    forall cell | cell in b
      ensures cell !in a
    {
      assert cell == (cell.0, cell.1);
    }
  }

  /** X[l, j] = g for the row range l = row0 .. row0 + N - 1: column j of
      those rows gets the curve of frequency freq at grid points 0 .. N - 1
      with draw u; no other cell changes. */
  method FillColumn(X: array2<real>, row0: nat, N: nat, j: nat, freq: int, u: real, g: Transform)
    requires row0 + N <= X.Length0 && j < X.Length1
    modifies X
    ensures forall r, c :: 0 <= r < X.Length0 && 0 <= c < X.Length1 ==>
              X[r, c] == if c == j && row0 <= r < row0 + N then g(freq, r - row0, u) else old(X[r, c])
  {
    var k := 0;
    while k < N
      invariant 0 <= k <= N
      invariant forall r, c :: 0 <= r < X.Length0 && 0 <= c < X.Length1 ==>
                  X[r, c] == if c == j && row0 <= r < row0 + k then g(freq, r - row0, u) else old(X[r, c])
    {
      X[row0 + k, j] := g(freq, k, u);
      k := k + 1;
    }
  }

  /** The for-j loop of one block: column j of the rows row0 .. row0 + N - 1
      gets the curve of frequency omega2[j] with draw u, and nothing outside
      those rows changes. The ghost set written collects the cells written;
      each column slice is checked to be disjoint from it before it is
      written, so no cell of the block is written twice. */
  method FillBlock(X: array2<real>, omega2: array<int>, row0: nat, N: nat, u: real, g: Transform)
      returns (ghost written: set<(nat, nat)>)
    requires row0 + N <= X.Length0 && omega2.Length == X.Length1
    modifies X
    ensures Covers(written, row0, row0 + N, X.Length1)
    ensures forall r, c :: 0 <= r < X.Length0 && 0 <= c < X.Length1 ==>
              X[r, c] == if row0 <= r < row0 + N then g(omega2[c], r - row0, u) else old(X[r, c])
  {
    written := {};
    var j := 0;
    while j < X.Length1
      invariant 0 <= j <= X.Length1
      invariant forall r: nat, c: nat :: (r, c) in written <==> row0 <= r < row0 + N && c < j
      invariant forall r, c :: 0 <= r < X.Length0 && 0 <= c < X.Length1 ==>
                  X[r, c] == if row0 <= r < row0 + N && c < j then g(omega2[c], r - row0, u) else old(X[r, c])
    {
      ghost var slice := set r: nat | row0 <= r < row0 + N :: (r, j);
      assert slice !! written;
      FillColumn(X, row0, N, j, omega2[j], u, g);
      written := written + slice;
      j := j + 1;
    }
  }

  /** X holds the sampler's values in every cell of rows 0 .. rows - 1. */
  ghost predicate Filled(X: array2<real>, omega: seq<int>, N: nat, g: Transform, stream: nat -> real, first: nat, rows: nat)
    reads X
    requires 1 <= N && rows <= X.Length0 == N * |omega| && X.Length1 == |omega|
  {
    forall r, c :: 0 <= r < rows && 0 <= c < X.Length1 ==> X[r, c] == Cell(omega, N, g, stream, first, r, c)
  }

  /** One iteration of the for-i loop: block i rotates the frequencies into
      the reused buffer omega2, takes exactly one draw (draw number
      first + i), and fills its rows i * N .. (i + 1) * N - 1, leaving every
      other row as it was. With the earlier blocks already filled, the
      blocks up to i are then filled, and the cells written so far grow by
      exactly the cells of block i, none of which had been written before. */
  method SweepBlock(X: array2<real>, omega2: array<int>, omega: seq<int>, N: nat, i: nat, row0: nat,
                    g: Transform, rng: PhaseSource, ghost first: nat, ghost written: set<(nat, nat)>)
      returns (ghost written': set<(nat, nat)>)
    requires 1 <= N && i < |omega| && row0 == i * N
    requires X.Length0 == N * |omega| && X.Length1 == |omega| && omega2.Length == |omega|
    requires rng.drawn == first + i
    requires Covers(written, 0, row0, |omega|)
    requires Filled(X, omega, N, g, rng.stream, first, row0)
    modifies X, omega2, rng
    ensures omega2[..] == Rotated(omega, i)
    ensures rng.drawn == old(rng.drawn) + 1
    ensures row0 + N <= X.Length0
    ensures Covers(written', 0, row0 + N, |omega|)
    ensures forall r, c :: 0 <= r < X.Length0 && 0 <= c < X.Length1 && !(row0 <= r < row0 + N) ==>
              X[r, c] == old(X[r, c])
    ensures Filled(X, omega, N, g, rng.stream, first, row0 + N)
  {
    BlockRow(N, |omega|, i, N - 1);
    Rotate(omega2, omega, i);
    var u := rng.Draw();
    ghost var block := FillBlock(X, omega2, row0, N, u, g);
    CoversUnion(written, block, 0, row0, row0 + N, |omega|);
    written' := written + block;
    forall r, c | 0 <= r < row0 + N && 0 <= c < |omega|
      ensures X[r, c] == Cell(omega, N, g, rng.stream, first, r, c)
    {
      if r >= row0 {
        CellInBlock(omega, N, g, rng.stream, first, i, r - row0, c);
        assert X[r, c] == g(omega2[..][c], r - row0, u);
      }
    }
  }

  /** The for-i loop over the D blocks, in block order. The ghost set
      written collects the cells written so far; each block is disjoint
      from it, so no cell is written twice, and at the end every cell of X
      has been written. */
  method FillBlocks(X: array2<real>, omega2: array<int>, omega: seq<int>, N: nat, g: Transform, rng: PhaseSource)
      returns (ghost written: set<(nat, nat)>)
    requires 1 <= N && 1 <= |omega|
    requires X.Length0 == N * |omega| && X.Length1 == |omega| && omega2.Length == |omega|
    modifies X, omega2, rng
    ensures omega2[..] == Rotated(omega, |omega| - 1)
    ensures rng.drawn == old(rng.drawn) + |omega|
    ensures Covers(written, 0, X.Length0, X.Length1)
    ensures forall r, c :: 0 <= r < X.Length0 && 0 <= c < X.Length1 ==>
              X[r, c] == Cell(omega, N, g, rng.stream, old(rng.drawn), r, c)
  {
    var D := |omega|;
    ghost var first := rng.drawn;
    written := {};
    var i := 0;
    var row0 := 0;
    while i < D
      invariant 0 <= i <= D && row0 == i * N && row0 <= X.Length0
      invariant rng.drawn == first + i
      invariant 0 < i ==> omega2[..] == Rotated(omega, i - 1)
      invariant Covers(written, 0, row0, D)
      invariant Filled(X, omega, N, g, rng.stream, first, row0)
    {
      written := SweepBlock(X, omega2, omega, N, i, row0, g, rng, first, written);
      assert (i + 1) * N == row0 + N;
      i := i + 1;
      row0 := row0 + N;
    }
  }

  /** sample(problem, N, M) for a problem with D parameters, without the
      final scaling to the problem's bounds. It fails with an
      invalid-argument error, having drawn nothing and built nothing, when
      N <= 4M^2. Otherwise X has N * D rows and D columns, exactly D phases
      are drawn, one per block in block order, and row k of block i, column
      j holds the curve value for frequency Rotated(omega, i)[j], grid point
      k and the i-th draw. */
  method Sample(N: int, M: int, D: int, g: Transform, rng: PhaseSource) returns (result: Result<array2<real>>)
    requires 1 <= M && 1 <= D
    modifies rng
    ensures result.Failure? <==> N <= 4 * M * M
    ensures result.Failure? ==> result.error == SampleSizeTooSmall(N, M) && rng.drawn == old(rng.drawn)
    ensures result.Success? ==>
              && fresh(result.value)
              && result.value.Length0 == N * D && result.value.Length1 == D
              && rng.drawn == old(rng.drawn) + D
    ensures result.Success? ==>
              forall r, c :: 0 <= r < N * D && 0 <= c < D ==>
                result.value[r, c] == Cell(Frequencies(N, M, D), N, g, rng.stream, old(rng.drawn), r, c)
  {
    if N <= 4 * M * M {
      return Failure(SampleSizeTooSmall(N, M));
    }
    var omega := Frequencies(N, M, D);
    var X := new real[N * D, D]((r, c) => 0.0);
    var omega2 := new int[D](p => 0);
    ghost var written := FillBlocks(X, omega2, omega, N, g, rng);
    result := Success(X);
  }

  /** Row k of block i, column j: the cell lies inside X and holds the curve
      value for block i's frequency of column j, grid point k and the i-th
      draw after the first. */
  lemma CellInBlock(omega: seq<int>, N: nat, g: Transform, stream: nat -> real, first: nat, i: nat, k: nat, j: nat)
    requires 1 <= N && i < |omega| && k < N && j < |omega|
    ensures i * N + k < N * |omega|
            && Cell(omega, N, g, stream, first, i * N + k, j) == g(Rotated(omega, i)[j], k, stream(first + i))
  {
    BlockRow(N, |omega|, i, k);
  }

  /** In block i the swept column i carries the base frequency, and every
      other column's frequency f satisfies 2M * f <= omega[0]: the swept
      parameter is the only one oscillating at the base frequency. */
  lemma SweptColumnDominates(N: int, M: int, D: int, i: nat, j: nat)
    requires 1 <= M && 1 <= D && N > 4 * M * M && i < D && j < D
    ensures Rotated(Frequencies(N, M, D), i)[i] == Frequencies(N, M, D)[0]
    ensures j != i ==> 1 <= Rotated(Frequencies(N, M, D), i)[j]
    ensures j != i ==> 2 * M * Rotated(Frequencies(N, M, D), i)[j] <= Rotated(Frequencies(N, M, D), i)[i]
  {
    var omega := Frequencies(N, M, D);
    RotatedAt(omega, i, i);
    RotatedAt(omega, i, j);
    BaseDominates(N, M, D);
    if j < i {
      assert Rotated(omega, i)[j] == omega[j + 1];
    }
  }
}
