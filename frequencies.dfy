/** The frequency assigner of the FAST sampler: the vector omega of length D
    whose first entry is the frequency of the swept ("base") parameter and
    whose other D - 1 entries are the frequencies of the complementary
    parameters. All quantities are non-negative, so the floor of Python's
    true division and Dafny's Euclidean division agree. */
module FrequencyAssignment {
  import opened Arith

  /** omega[0] = floor((N - 1) / (2M)): the largest w0 with 2M * w0 <= N - 1. */
  function BaseFrequency(N: int, M: int): (w0: int)
    requires 1 <= M && 1 <= N
    ensures 0 <= w0
    ensures 2 * M * w0 <= N - 1 < 2 * M * w0 + 2 * M
  {
    (N - 1) / (2 * M)
  }

  /** m = floor(omega[0] / (2M)): the largest m with 2M * m <= omega[0]. */
  function HarmonicLimit(w0: int, M: int): (m: int)
    requires 1 <= M && 0 <= w0
    ensures 0 <= m
    ensures 2 * M * m <= w0 < 2 * M * m + 2 * M
  {
    w0 / (2 * M)
  }

  /** The limit m for a given sample size N and interference parameter M. */
  function Limit(N: int, M: int): int
    requires 1 <= M && 1 <= N
  {
    HarmonicLimit(BaseFrequency(N, M), M)
  }

  /** floor(linspace(1, m, count)), with the points computed in exact
      arithmetic: point k is 1 + k * (m - 1) / (count - 1); a single point
      is the start 1; no points give the empty sequence. */
  function EvenlySpaced(m: int, count: nat): (r: seq<int>)
    ensures |r| == count
  {
    if count == 0 then []
    else if count == 1 then [1]
    else seq(count, k requires 0 <= k < count => 1 + k * (m - 1) / (count - 1))
  }

  /** arange(count) % m + 1: the frequencies 1..m repeated cyclically. */
  function Cyclic(m: int, count: nat): (r: seq<int>)
    requires 1 <= m
    ensures |r| == count
  {
    seq(count, t requires 0 <= t < count => t % m + 1)
  }

  /** The frequency vector omega. The complementary frequencies are evenly
      spaced over 1..m when there are at most m of them, and cycle through
      1..m otherwise. The entry check N > 4M^2 is what makes m >= 1, so the
      cyclic branch never takes a remainder modulo zero. */
  function Frequencies(N: int, M: int, D: int): (omega: seq<int>)
    requires 1 <= M && 1 <= D && N > 4 * M * M
    ensures |omega| == D
    ensures omega[0] >= 2 * M
  {
    var w0 := BaseFrequency(N, M);
    var m := HarmonicLimit(w0, M);
    LimitPositive(N, M);
    [w0] + (if m >= D - 1 then EvenlySpaced(m, D - 1) else Cyclic(m, D - 1))
  }

  /** N > 4M^2 gives omega[0] >= 2M and hence m >= 1. */
  lemma LimitPositive(N: int, M: int)
    requires 1 <= M && N > 4 * M * M
    ensures BaseFrequency(N, M) >= 2 * M
    ensures Limit(N, M) >= 1
  {
    var w0 := BaseFrequency(N, M);
    assert (2 * M) * (2 * M) == 4 * M * M;
    assert (w0 + 1) * (2 * M) == 2 * M * w0 + 2 * M;
    MulCancelLt(2 * M, w0 + 1, 2 * M);
    var m := HarmonicLimit(w0, M);
    assert (m + 1) * (2 * M) == 2 * M * m + 2 * M;
    MulCancelLt(1, m + 1, 2 * M);
  }

  /** One evenly spaced point lies in 1..m. */
  lemma EvenlySpacedPoint(m: int, count: nat, k: nat)
    requires 2 <= count <= m && k < count
    ensures 1 <= EvenlySpaced(m, count)[k] <= m
  {
    var c := count - 1;
    var e := k * (m - 1);
    assert EvenlySpaced(m, count)[k] == 1 + e / c;
    MulLeq(0, k, m - 1);
    MulLeq(k, c, m - 1);
    DivMonotone(0, e, c);
    DivMonotone(e, c * (m - 1), c);
    DivExact(m - 1, c);
  }

  /** The first evenly spaced point is 1 and the last is m. */
  lemma EvenlySpacedEnds(m: int, count: nat)
    requires 2 <= count <= m
    ensures EvenlySpaced(m, count)[0] == 1
    ensures EvenlySpaced(m, count)[count - 1] == m
  {
    var c := count - 1;
    assert EvenlySpaced(m, count)[c] == 1 + c * (m - 1) / c;
    assert c * (m - 1) == (m - 1) * c;
    DivExact(m - 1, c);
  }

  /** A later evenly spaced point exceeds an earlier one by at least 1. */
  lemma EvenlySpacedStep(m: int, count: nat, k1: nat, k2: nat)
    requires 2 <= count <= m && k1 < k2 < count
    ensures EvenlySpaced(m, count)[k1] < EvenlySpaced(m, count)[k2]
  {
    var c := count - 1;
    assert EvenlySpaced(m, count)[k1] == 1 + k1 * (m - 1) / c;
    assert EvenlySpaced(m, count)[k2] == 1 + k2 * (m - 1) / c;
    assert (k1 + 1) * (m - 1) == k1 * (m - 1) + (m - 1);
    MulLeq(k1 + 1, k2, m - 1);
    DivMonotone(k1 * (m - 1) + c, k2 * (m - 1), c);
    DivAddDivisor(k1 * (m - 1), c);
  }

  /** With at least as many values 1..m as points, the evenly spaced points
      start at 1, end at m, stay within 1..m and are strictly increasing
      (the spacing (m - 1) / (count - 1) is at least 1). */
  lemma EvenlySpacedShape(m: int, count: nat)
    requires 1 <= count <= m
    ensures EvenlySpaced(m, count)[0] == 1
    ensures count >= 2 ==> EvenlySpaced(m, count)[count - 1] == m
    ensures forall k :: 0 <= k < count ==> 1 <= EvenlySpaced(m, count)[k] <= m
    ensures forall k1, k2 :: 0 <= k1 < k2 < count ==>
              EvenlySpaced(m, count)[k1] < EvenlySpaced(m, count)[k2]
  {
    if count >= 2 {
      EvenlySpacedEnds(m, count);
      forall k | 0 <= k < count
        ensures 1 <= EvenlySpaced(m, count)[k] <= m
      {
        EvenlySpacedPoint(m, count, k);
      }
      forall k1, k2 | 0 <= k1 < k2 < count
        ensures EvenlySpaced(m, count)[k1] < EvenlySpaced(m, count)[k2]
      {
        EvenlySpacedStep(m, count, k1, k2);
      }
    }
  }

  /** The cyclic frequencies lie in 1..m and repeat with period m. */
  lemma CyclicShape(m: int, count: nat)
    requires 1 <= m
    ensures forall t :: 0 <= t < count ==> 1 <= Cyclic(m, count)[t] <= m
    ensures forall t :: 0 <= t && t + m < count ==> Cyclic(m, count)[t + m] == Cyclic(m, count)[t]
  {
    var r := Cyclic(m, count);
    forall t | 0 <= t && t + m < count
      ensures r[t + m] == r[t]
    {
      assert t == t / m * m + t % m;
      assert (t / m + 1) * m == t / m * m + m;
      DivBetween(t + m, m, t / m + 1);
    }
  }

  /** In the cyclic branch, the complementary frequencies are Cyclic(m, D - 1). */
  lemma CyclicTail(N: int, M: int, D: int)
    requires 1 <= M && 1 <= D && N > 4 * M * M
    requires Limit(N, M) < D - 1
    ensures Limit(N, M) >= 1
    ensures Frequencies(N, M, D)[1..] == Cyclic(Limit(N, M), D - 1)
  {
    LimitPositive(N, M);
  }

  /** Cyclic branch (m < D - 1): omega[k] = ((k - 1) mod m) + 1 for k >= 1,
      which lies in 1..m and repeats with period m. */
  lemma CyclicBranch(N: int, M: int, D: int)
    requires 1 <= M && 1 <= D && N > 4 * M * M
    requires Limit(N, M) < D - 1
    ensures Limit(N, M) >= 1
    ensures forall k :: 1 <= k < D ==>
              Frequencies(N, M, D)[k] == (k - 1) % Limit(N, M) + 1
    ensures forall k :: 1 <= k < D ==> 1 <= Frequencies(N, M, D)[k] <= Limit(N, M)
    ensures forall k :: 1 <= k && k + Limit(N, M) < D ==>
              Frequencies(N, M, D)[k + Limit(N, M)] == Frequencies(N, M, D)[k]
  {
    var m := Limit(N, M);
    var omega := Frequencies(N, M, D);
    var tail := Cyclic(m, D - 1);
    CyclicTail(N, M, D);
    CyclicShape(m, D - 1);
    forall k | 1 <= k < D
      ensures omega[k] == tail[k - 1]
    {
      assert omega[k] == omega[1..][k - 1];
    }
  }

  /** In the evenly spaced branch, the complementary frequencies are
      EvenlySpaced(m, D - 1). */
  lemma EvenlySpacedTail(N: int, M: int, D: int)
    requires 1 <= M && 1 <= D && N > 4 * M * M
    requires Limit(N, M) >= D - 1
    ensures Frequencies(N, M, D)[1..] == EvenlySpaced(Limit(N, M), D - 1)
  {
  }

  /** Evenly spaced branch (m >= D - 1, D >= 2): omega[1] = 1, the last
      frequency is m when there are at least two of them, all lie in 1..m,
      and they are strictly increasing, hence pairwise distinct. */
  lemma EvenlySpacedBranch(N: int, M: int, D: int)
    requires 1 <= M && 2 <= D && N > 4 * M * M
    requires Limit(N, M) >= D - 1
    ensures Frequencies(N, M, D)[1] == 1
    ensures D >= 3 ==> Frequencies(N, M, D)[D - 1] == Limit(N, M)
    ensures forall k :: 1 <= k < D ==> 1 <= Frequencies(N, M, D)[k] <= Limit(N, M)
    ensures forall k1, k2 :: 1 <= k1 < k2 < D ==>
              Frequencies(N, M, D)[k1] < Frequencies(N, M, D)[k2]
  {
    var m := Limit(N, M);
    var omega := Frequencies(N, M, D);
    var tail := EvenlySpaced(m, D - 1);
    EvenlySpacedTail(N, M, D);
    EvenlySpacedShape(m, D - 1);
    assert omega[1] == tail[0];
    assert omega[D - 1] == tail[D - 2];
    forall k | 1 <= k < D
      ensures 1 <= omega[k] <= m
    {
      assert omega[k] == tail[k - 1];
    }
    forall k1, k2 | 1 <= k1 < k2 < D
      ensures omega[k1] < omega[k2]
    {
      assert omega[k1] == tail[k1 - 1] && omega[k2] == tail[k2 - 1];
    }
  }

  /** Separation of the base frequency: omega[0] >= 2M * m >= 2M * omega[k]
      for every complementary frequency, so each of them is positive, at
      most m, and strictly below omega[0] / M. */
  lemma BaseDominates(N: int, M: int, D: int)
    requires 1 <= M && 1 <= D && N > 4 * M * M
    ensures 2 * M * Limit(N, M) <= Frequencies(N, M, D)[0]
    ensures forall k :: 1 <= k < D ==>
              && 1 <= Frequencies(N, M, D)[k] <= Limit(N, M)
              && 2 * M * Frequencies(N, M, D)[k] <= Frequencies(N, M, D)[0]
              && M * Frequencies(N, M, D)[k] < Frequencies(N, M, D)[0]
              && Frequencies(N, M, D)[k] < Frequencies(N, M, D)[0]
  {
    var m := Limit(N, M);
    var omega := Frequencies(N, M, D);
    if D >= 2 {
      if m >= D - 1 {
        EvenlySpacedBranch(N, M, D);
      } else {
        CyclicBranch(N, M, D);
      }
    }
    forall k | 1 <= k < D
      ensures 2 * M * omega[k] <= omega[0]
      ensures M * omega[k] < omega[0] && omega[k] < omega[0]
    {
      Dominates(omega[0], omega[k], m, M);
    }
  }

  /** A frequency f in 1..m, with 2M * m <= w0, satisfies 2M * f <= w0 and
      M * f < w0, so f < w0. */
  lemma Dominates(w0: int, f: int, m: int, M: int)
    requires 1 <= M && 1 <= f <= m && 2 * M * m <= w0
    ensures 2 * M * f <= w0 && M * f < w0 && f < w0
  {
    MulLeq(f, m, 2 * M);
    MulLeq(1, M, f);
    assert 2 * M * f == M * f + M * f;
  }

  /** N = 100, M = 4, D = 3: omega[0] = 12, m = 1 < 2, so the cyclic branch
      gives omega = [12, 1, 1]. */
  lemma SmallExample()
    ensures Limit(100, 4) == 1
    ensures Frequencies(100, 4, 3) == [12, 1, 1]
  {
    assert Cyclic(1, 2) == [1, 1];
  }

  /** N = 4100, M = 4, D = 10: omega[0] = 512, m = 64 >= 9, so the nine
      complementary frequencies are the floors of nine evenly spaced points
      from 1 to 64. */
  lemma LargeExample()
    ensures Limit(4100, 4) == 64
    ensures Frequencies(4100, 4, 10) == [512, 1, 8, 16, 24, 32, 40, 48, 56, 64]
  {
    assert EvenlySpaced(64, 9) == [1, 8, 16, 24, 32, 40, 48, 56, 64];
  }
}
