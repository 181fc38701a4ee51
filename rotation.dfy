/** The per-block frequency assignment omega2 of the FAST sampler. In block
    i, position i (the swept parameter) takes the base frequency omega[0]
    and the other positions, in increasing order, take omega[1..] in order.
    The sampler keeps one omega2 buffer for all blocks and overwrites it in
    place at the start of each block. */
module Rotation {

  /** The integers lo, lo + 1, ..., hi - 1 (Python's list(range(lo, hi))). */
  function Range(lo: nat, hi: nat): (r: seq<nat>)
    requires lo <= hi
    ensures |r| == hi - lo
  {
    seq(hi - lo, t requires 0 <= t < hi - lo => lo + t)
  }

  /** The index list idx of block i: every position of 0..D-1 except i, in
      increasing order, so its q-th entry is q before i and q + 1 after. */
  function OtherPositions(D: nat, i: nat): (idx: seq<nat>)
    requires i < D
    ensures |idx| == D - 1
    ensures forall q :: 0 <= q < |idx| ==> idx[q] < D && idx[q] != i
    ensures forall q :: 0 <= q < |idx| ==> idx[q] == if q < i then q else q + 1
  {
    Range(0, i) + Range(i + 1, D)
  }

  /** Every position other than i occurs in the index list of block i. */
  lemma OtherPositionsCover(D: nat, i: nat, p: nat)
    requires i < D && p < D && p != i
    ensures var q := if p < i then p else p - 1;
            q < D - 1 && OtherPositions(D, i)[q] == p
  {
  }

  /** The frequencies of block i: omega[1..i+1], then omega[0], then omega[i+1..]. */
  function Rotated(omega: seq<int>, i: nat): (w: seq<int>)
    requires i < |omega|
    ensures |w| == |omega|
  {
    omega[1..i + 1] + [omega[0]] + omega[i + 1..]
  }

  /** Position by position, block i's frequencies are omega[j + 1] before i,
      the base frequency omega[0] at i, and omega[j] after i. */
  lemma RotatedAt(omega: seq<int>, i: nat, j: nat)
    requires i < |omega| && j < |omega|
    ensures Rotated(omega, i)[j] == if j < i then omega[j + 1] else if j == i then omega[0] else omega[j]
  {
    var w := Rotated(omega, i);
    if j < i {
      assert w[j] == omega[1..i + 1][j];
    } else if j > i {
      assert w[j] == omega[i + 1..][j - i - 1];
    }
  }

  /** omega2[idx] = omega[1:]: the scatter of the complementary frequencies
      through the index list puts omega[q + 1] at position idx[q]. */
  lemma RotatedScatter(omega: seq<int>, i: nat, q: nat)
    requires i < |omega| && q < |omega| - 1
    ensures Rotated(omega, i)[OtherPositions(|omega|, i)[q]] == omega[q + 1]
  {
    RotatedAt(omega, i, OtherPositions(|omega|, i)[q]);
  }

  /** Each block uses every frequency of omega exactly as often as omega does:
      block i's assignment is a permutation of omega. */
  lemma RotatedIsPermutation(omega: seq<int>, i: nat)
    requires i < |omega|
    ensures multiset(Rotated(omega, i)) == multiset(omega)
  {
    assert omega == [omega[0]] + omega[1..i + 1] + omega[i + 1..];
    calc {
      multiset(Rotated(omega, i));
      multiset(omega[1..i + 1]) + multiset([omega[0]]) + multiset(omega[i + 1..]);
      multiset([omega[0]]) + multiset(omega[1..i + 1]) + multiset(omega[i + 1..]);
      multiset(omega);
    }
  }

  /** Lines 53-55 of the sampler, run on the reused buffer omega2: whatever
      earlier blocks left in it, afterwards it holds block i's frequencies. */
  method Rotate(omega2: array<int>, omega: seq<int>, i: nat)
    requires omega2.Length == |omega| && i < |omega|
    modifies omega2
    ensures omega2[..] == Rotated(omega, i)
  {
    omega2[i] := omega[0];
    var idx := OtherPositions(|omega|, i);
    var t := 0;
    while t < |idx|
      invariant 0 <= t <= |idx|
      invariant omega2[i] == omega[0]
      invariant forall q :: 0 <= q < t ==> omega2[idx[q]] == omega[q + 1]
    {
      omega2[idx[t]] := omega[t + 1];
      t := t + 1;
    }
    forall j | 0 <= j < |omega|
      ensures omega2[j] == Rotated(omega, i)[j]
    {
      RotatedAt(omega, i, j);
      if j != i {
        OtherPositionsCover(|omega|, i, j);
      }
    }
  }
}
