/**
 * Square matrices of exact numbers and the dot product that specifies
 * both multiplication kernels.
 *
 * A matrix is an `array2<int>`: the benchmark's single-precision floats are
 * replaced by integers, and rounding is not modelled. Both kernels build
 * each cell's sum as the same chain of additions in increasing `k`, so the
 * statement that they compute the same product does not rest on the
 * integers' associativity; only the order in which cells are visited differs.
 */
module Matrix {

  /** `M` has dimension `n` x `n`. */
  predicate Square(M: array2<int>, n: nat)
  {
    M.Length0 == n && M.Length1 == n
  }

  /**
   * Row `i` of `A` times column `j` of `B`, restricted to the reduction
   * indices `lo <= k < hi`: the sum of `A[i, k] * B[k, j]`, added in
   * increasing order of `k`, just as the kernels' innermost loops add them.
   */
  function Dot(A: array2<int>, B: array2<int>, i: int, j: int, lo: int, hi: int): (r: int)
    reads A, B
    requires 0 <= i < A.Length0 && 0 <= j < B.Length1
    requires 0 <= lo <= hi <= A.Length1 && hi <= B.Length0
    decreases hi - lo
  {
    if lo == hi then 0 else Dot(A, B, i, j, lo, hi - 1) + A[i, hi - 1] * B[hi - 1, j]
  }

  /**
   * A dot product over `[lo, hi)` is the dot product over `[lo, mid)` plus
   * the one over `[mid, hi)`: the partial sums contributed by successive
   * reduction blocks add up to the whole.
   */
  lemma {:induction false} DotSplit(A: array2<int>, B: array2<int>, i: int, j: int, lo: int, mid: int, hi: int)
    requires 0 <= i < A.Length0 && 0 <= j < B.Length1
    requires 0 <= lo <= mid <= hi <= A.Length1 && hi <= B.Length0
    ensures Dot(A, B, i, j, lo, hi) == Dot(A, B, i, j, lo, mid) + Dot(A, B, i, j, mid, hi)
    decreases hi - mid
  {
    if mid < hi {
      DotSplit(A, B, i, j, lo, mid, hi - 1);
    }
  }

  /**
   * When every entry of `A` is `a` and every entry of `B` is `b`, each of
   * the `hi - lo` terms is `a * b`.
   */
  lemma {:induction false} DotUniform(A: array2<int>, B: array2<int>, a: int, b: int, i: int, j: int, lo: int, hi: int)
    requires 0 <= i < A.Length0 && 0 <= j < B.Length1
    requires 0 <= lo <= hi <= A.Length1 && hi <= B.Length0
    requires forall r, c :: 0 <= r < A.Length0 && 0 <= c < A.Length1 ==> A[r, c] == a
    requires forall r, c :: 0 <= r < B.Length0 && 0 <= c < B.Length1 ==> B[r, c] == b
    ensures Dot(A, B, i, j, lo, hi) == a * b * (hi - lo)
    decreases hi - lo
  {
    if lo < hi {
      DotUniform(A, B, a, b, i, j, lo, hi - 1);
      assert a * b * (hi - lo) == a * b * (hi - 1 - lo) + a * b;
    }
  }
}
