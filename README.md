# Matrix multiplication tiling benchmark, modelled in Dafny

The benchmark compares two ways of computing `C = A * B` for square matrices:

- the plain i-j-k triple loop, `baseline_matmul`;
- the six-loop blocked (tiled) variant, `tiled_matmul`.

The benchmark fills `A`, `B` and two zeroed result matrices with `initialize_matrix`, runs both kernels and reports `2 * N * N * N` as its operation count.

This project models those parts as imperative Dafny:

- **Matrices.** Matrices are `array2<int>`. Integers replace single-precision floats, and rounding is not modelled. The kernels agree as written, not just up to rounding: both build each cell's sum as the same chain of additions in increasing `k`, starting from 0 when `C` starts zeroed.
- **Parameters.** The dimension `N` and the block size `BLOCK_SIZE` become parameters `n` and `t`.
- **Specification.** The specification function is `Matrix.Dot`, the sum of `A[i, k] * B[k, j]` over a range of `k`. It adds the terms in the same order as the kernels' innermost loops.

Each kernel's loop nest is a chain of methods, one method per loop level in the source's nesting order, with the `j` and `k` loops together in one method:

- **`baseline_matmul`:**
  - `Kernels.BaselineMatMul` runs the `i` loop.
  - `Kernels.BaselineRow` runs the `j` loop and the `k` loop inside it.
- **`tiled_matmul`:**
  - `Kernels.TiledMatMul` runs `ii`.
  - `Kernels.ColumnBlocks` runs `jj`.
  - `Kernels.ReductionBlocks` runs `kk`.
  - `Kernels.BlockPass` runs `i`.
  - `Kernels.BlockRow` runs `j` and `k`.

Every kernel method writes only `C`. `A` and `B` are read-only.

Besides its effect on `C`, every kernel method returns a ghost sequence: the `(i, j, k)` triples its innermost loop visits, in order. Each innermost iteration reads `A[i][k]` and `B[k][j]` into `sum`. Both kernels write `C[i][j]` after the `k` loop of its `j` iteration: the baseline at line 37, the blocked kernel at line 58. Only the blocked kernel reads `C[i][j]` first, at line 54. The baseline starts `sum` at 0 and never reads `C`. Whenever a cell is touched, its `k` loop runs at least once: it runs `n >= 1` times in the baseline and `t > 0` times in the blocked kernel. So every cell of `C` a kernel touches appears in some recorded triple, and the sequence covers the kernel's whole footprint.

- **Traces.** `Tiling.Run` defines that sequence one loop level at a time. `Tiling.TiledTrace` and `Tiling.BaselineTrace` are the traces of the two nests.
- **Tiled nest.** The lemmas in `Tiling` prove that the blocked nest:
  - visits every triple of the cube exactly once;
  - stays inside the matrices exactly when the block size divides `n`;
  - performs the same multiset of multiply-adds as the i-j-k nest.
- **Operation count.** `Benchmark` connects the reported count to the number of innermost iterations.

## Model

| member | source | states |
|---|---|---|
| Kernels.InitializeMatrix | matmul_tiling_benchmark.cpp:23-25 | the result is an `n` x `n` matrix whose every element is `val` |
| Kernels.BaselineMatMul | matmul_tiling_benchmark.cpp:30-40 | afterwards every `C[i, j]` is the full dot product of row `i` of `A` and column `j` of `B`, whatever `C` held before. The visited triples are exactly `BaselineTrace(n)` |
| Kernels.BaselineRow | matmul_tiling_benchmark.cpp:32-38 | row `i` of `C` is overwritten with its dot products, starting each sum at 0. Every other row keeps its old value. The visited triples are the `j` loop's run for row `i` |
| Kernels.TiledMatMul | matmul_tiling_benchmark.cpp:46-64 | when `t > 0` divides `n`, every `C[i, j]` ends as its old value plus the full dot product (the kernel accumulates). The visited triples are exactly `TiledTrace(n, t)` |
| Kernels.ColumnBlocks | matmul_tiling_benchmark.cpp:49-62 | the rows of row block `ii` each gain their full dot products. All other rows are unchanged. The visited triples are the `jj` loop's run |
| Kernels.ReductionBlocks | matmul_tiling_benchmark.cpp:50-61 | the cells of output block `(ii, jj)` each gain their full dot product, summed over the reduction blocks in turn. Cells outside the block are unchanged. The visited triples are the `kk` loop's run |
| Kernels.BlockPass | matmul_tiling_benchmark.cpp:52-60 | each cell of the `t` x `t` block gains its partial dot product over `[kk, kk + t)`. Every other cell is unchanged. The visited triples are the `i` loop's run |
| Kernels.BlockRow | matmul_tiling_benchmark.cpp:53-59 | in row `i`, each cell of the column block is read into `sum`, gains its partial dot product over `[kk, kk + t)` and is written back. Every other cell is unchanged. The visited triples are the `j` loop's run for that row |
| Matrix.Dot | matmul_tiling_benchmark.cpp:33-36 | the sum of `A[i, k] * B[k, j]` for `k` in `[lo, hi)`, added in increasing order of `k` as `sum` is built at lines 33-36 and 54-57 |
| Tiling.Run | matmul_tiling_benchmark.cpp:48-57 | the triples one loop level visits, in order: the run for the earlier values of its variable, then the whole inner loop for the last value. Element loops step by 1 to the end of their block, block loops by `t` to the common stopping value |
| Tiling.BlockEnd | matmul_tiling_benchmark.cpp:48-50 | the value at which `for (x = from; x < n; x += t)` stops: the first of `from`, `from + t`, ... that is not below `n`. Its contract: it is at least `from` and at least `n`, so the started blocks cover `[from, n)` |
| Tiling.TiledTrace | matmul_tiling_benchmark.cpp:48-63 | the triples of the six-loop nest in visiting order: the `ii` loop's run up to the blocks' stopping value |
| Tiling.BaselineTrace | matmul_tiling_benchmark.cpp:31-36 | the triples of the i-j-k nest in visiting order: the `i` loop's run over a single block of size `n` |
| Benchmark.FlopCount | matmul_tiling_benchmark.cpp:69 | the operation count `2 * n * n * n`, before the scaling by `1e9` |
| Kernels.BlockFits | matmul_tiling_benchmark.cpp:48-50 | when `t` divides `n`, a block that starts below `n` ends at or before `n` |
| Matrix.DotSplit | matmul_tiling_benchmark.cpp:50-57 | a dot product over `[lo, hi)` is the sum of the ones over `[lo, mid)` and `[mid, hi)`. So the partial sums of successive reduction blocks add up to the full sum |
| Matrix.DotUniform | matmul_tiling_benchmark.cpp:72-75 | for matrices filled with `a` and `b`, the dot product over `[lo, hi)` is `a * b * (hi - lo)` |
| Tiling.BlockEndIsN | matmul_tiling_benchmark.cpp:48-50 | a block loop stepping by `t` from 0 stops at a multiple of `t` in `[n, n + t)`. It stops exactly at `n` if and only if `t` divides `n` |
| Tiling.KRunCount | matmul_tiling_benchmark.cpp:55-57 | the `k` loop of one cell visits each reduction index of its range once, and nothing else |
| Tiling.JRunCount | matmul_tiling_benchmark.cpp:53-59 | the `j` loop of one row visits each triple of its columns and reduction block once, and nothing else |
| Tiling.IRunCount | matmul_tiling_benchmark.cpp:52-60 | the `i` loop visits each triple of its rows, column block and reduction block once, and nothing else |
| Tiling.KKRunCount | matmul_tiling_benchmark.cpp:50-61 | the `kk` loop visits each triple of the output block and of the reduction indices below its end once, and nothing else |
| Tiling.JJRunCount | matmul_tiling_benchmark.cpp:49-62 | the `jj` loop visits each triple of its row block, the columns below its end and all reduction indices once, and nothing else |
| Tiling.IIRunCount | matmul_tiling_benchmark.cpp:48-63 | the `ii` loop visits each triple of the rows below its end, all columns and all reduction indices once, and nothing else |
| Tiling.KRunLength | matmul_tiling_benchmark.cpp:55-57 | the `k` loop runs one iteration per reduction index of its range |
| Tiling.JRunLength | matmul_tiling_benchmark.cpp:53-59 | the `j` loop runs `t` iterations per column |
| Tiling.IRunLength | matmul_tiling_benchmark.cpp:52-60 | the `i` loop runs `t * t` iterations per row |
| Tiling.KKRunLength | matmul_tiling_benchmark.cpp:50-61 | the `kk` loop runs `t * t` iterations per reduction index |
| Tiling.JJRunLength | matmul_tiling_benchmark.cpp:49-62 | the `jj` loop runs `e * t` iterations per column |
| Tiling.IIRunLength | matmul_tiling_benchmark.cpp:48-63 | the `ii` loop runs `e * e` iterations per row |
| Tiling.TiledTraceCount | matmul_tiling_benchmark.cpp:48-63 | the blocked nest visits a triple once if all three coordinates lie below the blocks' stopping value, and never otherwise |
| Tiling.TiledVisitsEachTripleOnce | matmul_tiling_benchmark.cpp:48-57 | for any block size, the blocked nest visits every `(i, j, k)` in `[0, n)^3` exactly once |
| Tiling.TiledStaysInBounds | matmul_tiling_benchmark.cpp:48-55 | every index the blocked nest uses lies in `[0, n)` if and only if `n % t == 0`, which line 9 requires |
| Tiling.TiledTraceLength | matmul_tiling_benchmark.cpp:48-57 | when `t` divides `n`, the blocked nest runs exactly `n * n * n` innermost iterations |
| Tiling.BaselineTraceCount | matmul_tiling_benchmark.cpp:31-36 | the i-j-k nest visits every `(i, j, k)` in `[0, n)^3` exactly once, and nothing else |
| Tiling.BaselineTraceLength | matmul_tiling_benchmark.cpp:31-36 | the i-j-k nest runs exactly `n * n * n` innermost iterations |
| Tiling.TiledPermutesBaseline | matmul_tiling_benchmark.cpp:46-64 | when `t` divides `n`, the two nests perform the same multiply-adds, each equally often: their traces are permutations of each other |
| Benchmark.FlopCountCountsIterations | matmul_tiling_benchmark.cpp:69 | the reported count `2 * n * n * n` is two operations per innermost iteration, for either kernel |
| Benchmark.BothKernels | matmul_tiling_benchmark.cpp:71-99 | with both results freshly zeroed, the blocked kernel's result equals the baseline's, cell by cell, and both are the product `A * B` |
| Benchmark.RunBenchmark | matmul_tiling_benchmark.cpp:66-99 | the benchmark's set-up and both runs with `N = 1024` and block size 32. The reported count is `2 * N * N * N`, and every cell of either result is `a * b * N` |

## Left out

- Timing with `high_resolution_clock`, and the throughput and speedup divisions in `double` (lines 84-88, 98-102, 111): clock I/O and floating point.
- All console output (lines 77-81, 90-93, 104-108, 112-114): formatting only.
- `float` rounding: elements are unbounded integers. Each cell's sum is the same left-to-right chain of additions in both kernels: the blocked kernel stores and reloads the running sum exactly between reduction blocks, and runs those blocks in increasing `k`. Only the order in which cells are visited differs, so rounding would not make the kernels disagree.
- 32-bit `int` overflow of the loop indices: it cannot occur for `N = 1024`, and indices are unbounded here.
- The `/ 1e9` scaling of the operation count (line 69): `Benchmark.FlopCount` is the integer `2 * n * n * n`.
- `BLOCK_SIZE` as an overridable macro (lines 13-15): the block size is the parameter `t`, and `Benchmark.RunBenchmark` uses the default 32.
- The fill values 2.0 and 3.0 (lines 72-73): they become the parameters `a` and `b` of `Benchmark.RunBenchmark`.
- Kernels.InitializeMatrix: returns a fresh `n` x `n` array instead of resizing and refilling an existing `std::vector` in place. A Dafny array cannot change its dimensions. Vector allocation failure is not modelled.
- Kernels.BaselineMatMul: requires `C` to be a different matrix from `A` and `B`. The C++ signature would accept the same matrix twice, but the benchmark never does that, and aliasing would change the result.
- Kernels.TiledMatMul: requires `C` to be a different matrix from `A` and `B`, for the same reason as above. It also requires `t > 0` and `n % t == 0`, as the comment at line 9 demands. When `t` does not divide `n`, the source reads and writes past the end of its rows. The model states that case only about the visited triples, in `Tiling.TiledStaysInBounds`, and does not execute it.
