/** The row layout of the sample matrix X: N * D rows in D blocks of N rows.
    Block i (the sweep of parameter i) owns rows i * N .. (i + 1) * N - 1,
    and row k of the block is row i * N + k of X. */
module Layout {
  import opened Arith

  /** Row k of block i lies inside X, and block and offset are recovered
      from it as its quotient and remainder by N. */
  lemma BlockRow(N: nat, D: nat, i: nat, k: nat)
    requires i < D && k < N
    ensures i * N + k < N * D
    ensures (i * N + k) / N == i && (i * N + k) % N == k
  {
    MulLeq(i + 1, D, N);
    assert (i + 1) * N == i * N + N;
    DivBetween(i * N + k, N, i);
  }

  /** Every row r of X lies in block r / N, and in no other block. */
  lemma RowBlock(N: nat, D: nat, r: nat, i: nat)
    requires 1 <= N && r < N * D
    ensures r / N < D && r / N * N <= r < r / N * N + N
    ensures i * N <= r < i * N + N ==> i == r / N
  {
    assert r == r / N * N + r % N;
    if r / N >= D {
      MulLeq(D, r / N, N);
    }
    if i * N <= r < i * N + N {
      DivBetween(r, N, i);
    }
  }

  /** Blocks occupy ascending, disjoint row ranges: each row of an earlier
      block comes before each row of a later one. */
  lemma BlocksOrdered(N: nat, i1: nat, k1: nat, i2: nat, k2: nat)
    requires i1 < i2 && k1 < N
    ensures i1 * N + k1 < i2 * N + k2
  {
    MulLeq(i1 + 1, i2, N);
    assert (i1 + 1) * N == i1 * N + N;
  }
}
