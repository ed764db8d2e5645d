/**
 * The benchmark driver: the operation count it reports, and the set-up
 * that runs both kernels on the same inputs.
 */
module Benchmark {
  import opened Matrix
  import opened Tiling
  import opened Kernels

  /** The benchmark's matrix dimension. */
  const N: nat := 1024

  /** The benchmark's default block size. */
  const BlockSize: nat := 32

  /** The operation count the benchmark reports for one multiplication of dimension `n`. */
  function FlopCount(n: nat): nat
  {
    2 * n * n * n
  }

  /**
   * The reported count is one multiply and one add per innermost
   * iteration, for either kernel: the i-j-k nest and, when `t` divides `n`,
   * the blocked nest both run `n * n * n` of them.
   */
  lemma FlopCountCountsIterations(n: nat, t: int)
    requires t > 0 && n % t == 0
    ensures FlopCount(n) == 2 * |BaselineTrace(n)| == 2 * |TiledTrace(n, t)|
  {
    BaselineTraceLength(n);
    TiledTraceLength(n, t);
  }

  /**
   * Both kernels, each writing into its own freshly zeroed result: given
   * the same inputs they produce the same matrix, the product of `A` and `B`.
   * The zero start is what makes the accumulating blocked kernel agree
   * with the baseline.
   */
  method BothKernels(n: nat, t: nat, A: array2<int>, B: array2<int>) returns (cBase: array2<int>, cTiled: array2<int>)
    requires t > 0 && n % t == 0
    requires Square(A, n) && Square(B, n)
    ensures Square(cBase, n) && Square(cTiled, n)
    ensures forall i, j :: 0 <= i < n && 0 <= j < n ==>
      cTiled[i, j] == cBase[i, j] == Dot(A, B, i, j, 0, n)
  {
    cBase := InitializeMatrix(n, 0);
    cTiled := InitializeMatrix(n, 0);
    ghost var baseTrace := BaselineMatMul(n, A, B, cBase);
    ghost var tiledTrace := TiledMatMul(n, t, A, B, cTiled);
  }

  /**
   * The benchmark's set-up and both runs: `A` filled with `a`, `B` with `b`,
   * both results zeroed, then the baseline and the blocked kernel. Every
   * cell of either result is `a * b * N`; `flops` is the operation count
   * reported alongside.
   */
  method RunBenchmark(a: int, b: int) returns (flops: nat, cBase: array2<int>, cTiled: array2<int>)
    ensures flops == 2 * N * N * N
    ensures Square(cBase, N) && Square(cTiled, N)
    ensures forall i, j :: 0 <= i < N && 0 <= j < N ==> cBase[i, j] == cTiled[i, j] == a * b * N
  {
    flops := FlopCount(N);
    var A := InitializeMatrix(N, a);
    var B := InitializeMatrix(N, b);
    cBase, cTiled := BothKernels(N, BlockSize, A, B);
    forall i, j | 0 <= i < N && 0 <= j < N
      ensures Dot(A, B, i, j, 0, N) == a * b * N
    {
      DotUniform(A, B, a, b, i, j, 0, N);
    }
  }
}
