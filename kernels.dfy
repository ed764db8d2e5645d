/**
 * The benchmark's matrix routines: filling a matrix with one value, the
 * plain i-j-k multiplication, and the blocked (tiled) multiplication.
 *
 * The matrix dimension `n` and the block size `t` are parameters here;
 * the benchmark fixes them as compile-time constants and requires the
 * block size to divide the dimension.
 */
module Kernels {
  import opened Matrix
  import opened Tiling

  /** Makes `M` an `n` x `n` matrix whose every element is `val`. */
  method InitializeMatrix(n: nat, val: int) returns (M: array2<int>)
    ensures fresh(M) && Square(M, n)
    ensures forall i, j :: 0 <= i < n && 0 <= j < n ==> M[i, j] == val
  {
    M := new int[n, n]((_, _) => val);
  }

  /**
   * The i-j-k multiplication. Every cell of `C` is overwritten with the
   * full dot product of row `i` of `A` and column `j` of `B`; what `C` held
   * before plays no part in the result. The ghost result is the sequence of
   * `(i, j, k)` the innermost loop visits.
   */
  method BaselineMatMul(n: nat, A: array2<int>, B: array2<int>, C: array2<int>) returns (ghost trace: seq<Triple>)
    requires Square(A, n) && Square(B, n) && Square(C, n)
    requires C != A && C != B
    modifies C
    ensures forall i, j :: 0 <= i < n && 0 <= j < n ==> C[i, j] == Dot(A, B, i, j, 0, n)
    ensures trace == BaselineTrace(n)
  {
    trace := [];
    var i := 0;
    while i < n
      invariant 0 <= i <= n
      invariant trace == Run(ILoop, Pos(0, 0, 0, 0, 0), n, n, i)
      invariant forall r, c :: 0 <= r < i && 0 <= c < n ==> C[r, c] == Dot(A, B, r, c, 0, n)
    {
      ghost var row := BaselineRow(n, A, B, C, i);
      IStep(0, 0, 0, n, n, i + 1);
      trace := trace + row;
      i := i + 1;
    }
  }

  /**
   * The `j` and `k` loops of the i-j-k multiplication for row `i`: each
   * cell of the row is overwritten with its full dot product; every other
   * row is left as it was. The ghost result is the sequence of `(i, j, k)`
   * the innermost loop visits.
   */
  method BaselineRow(n: nat, A: array2<int>, B: array2<int>, C: array2<int>, i: nat) returns (ghost visited: seq<Triple>)
    requires Square(A, n) && Square(B, n) && Square(C, n)
    requires C != A && C != B
    requires i < n
    modifies C
    ensures forall r, c :: 0 <= r < n && 0 <= c < n ==>
      C[r, c] == if r == i then Dot(A, B, r, c, 0, n) else old(C[r, c])
    ensures visited == Run(JLoop, Pos(0, 0, 0, i, 0), n, n, n)
  {
    visited := [];
    var j := 0;
    while j < n
      invariant 0 <= j <= n
      invariant visited == Run(JLoop, Pos(0, 0, 0, i, 0), n, n, j)
      invariant forall r, c :: 0 <= r < n && 0 <= c < n ==>
        C[r, c] == if r == i && c < j then Dot(A, B, r, c, 0, n) else old(C[r, c])
    {
      ghost var beforeK := visited;
      var sum := 0;
      var k := 0;
      while k < n
        invariant 0 <= k <= n
        invariant visited == beforeK + Run(KLoop, Pos(0, 0, 0, i, j), n, n, k)
        invariant sum == Dot(A, B, i, j, 0, k)
        modifies {}
      {
        sum := sum + A[i, k] * B[k, j];
        KStep(0, 0, 0, i, j, n, n, k + 1);
        ExtendRun(beforeK, Run(KLoop, Pos(0, 0, 0, i, j), n, n, k), Run(KLoop, Pos(0, 0, 0, i, j), n, n, k + 1), [(i, j, k)]);
        visited := visited + [(i, j, k)];
        k := k + 1;
      }
      C[i, j] := sum;
      JStep(0, 0, 0, i, n, n, j + 1);
      j := j + 1;
    }
  }

  /**
   * One pass over block `(ii, jj, kk)`: for each row `i` of the row block
   * and each column `j` of the column block, reads `C[i, j]`, adds the
   * partial dot product over the reduction block `[kk, kk + t)` and writes
   * the sum back. Cells outside the `t` x `t` block are left as they were.
   * The ghost result is the sequence of `(i, j, k)` the innermost loop
   * visits.
   */
  method BlockPass(n: nat, t: nat, A: array2<int>, B: array2<int>, C: array2<int>, ii: nat, jj: nat, kk: nat)
    returns (ghost visited: seq<Triple>)
    requires Square(A, n) && Square(B, n) && Square(C, n)
    requires C != A && C != B
    requires ii + t <= n && jj + t <= n && kk + t <= n
    modifies C
    ensures forall r, c :: 0 <= r < n && 0 <= c < n ==>
      C[r, c] == old(C[r, c]) + if ii <= r < ii + t && jj <= c < jj + t then Dot(A, B, r, c, kk, kk + t) else 0
    ensures visited == Run(ILoop, Pos(ii, jj, kk, 0, 0), n, t, ii + t)
  {
    visited := [];
    var i := ii;
    while i < ii + t
      invariant ii <= i <= ii + t
      invariant visited == Run(ILoop, Pos(ii, jj, kk, 0, 0), n, t, i)
      invariant forall r, c :: 0 <= r < n && 0 <= c < n ==>
        C[r, c] == old(C[r, c]) + if ii <= r < i && jj <= c < jj + t then Dot(A, B, r, c, kk, kk + t) else 0
    {
      label beforeRow:
      ghost var row := BlockRow(n, t, A, B, C, ii, jj, kk, i);
      IStep(ii, jj, kk, n, t, i + 1);
      visited := visited + row;
      forall r, c | 0 <= r < n && 0 <= c < n
        ensures C[r, c] == old(C[r, c]) + if ii <= r < i + 1 && jj <= c < jj + t then Dot(A, B, r, c, kk, kk + t) else 0
      {
        assert old@beforeRow(C[r, c]) == old(C[r, c]) + if ii <= r < i && jj <= c < jj + t then Dot(A, B, r, c, kk, kk + t) else 0;
      }
      i := i + 1;
    }
  }

  /**
   * The `j` and `k` loops of one block pass, for row `i`: each cell of the
   * row inside the column block `[jj, jj + t)` gains its partial dot product
   * over the reduction block `[kk, kk + t)`; every other cell is left as it
   * was. The ghost result is the sequence of `(i, j, k)` the innermost loop
   * visits.
   */
  method BlockRow(n: nat, t: nat, A: array2<int>, B: array2<int>, C: array2<int>, ii: nat, jj: nat, kk: nat, i: nat)
    returns (ghost visited: seq<Triple>)
    requires Square(A, n) && Square(B, n) && Square(C, n)
    requires C != A && C != B
    requires i < n && jj + t <= n && kk + t <= n
    modifies C
    ensures forall r, c :: 0 <= r < n && 0 <= c < n ==>
      C[r, c] == old(C[r, c]) + if r == i && jj <= c < jj + t then Dot(A, B, r, c, kk, kk + t) else 0
    ensures visited == Run(JLoop, Pos(ii, jj, kk, i, 0), n, t, jj + t)
  {
    visited := [];
    var j := jj;
    while j < jj + t
      invariant jj <= j <= jj + t
      invariant visited == Run(JLoop, Pos(ii, jj, kk, i, 0), n, t, j)
      invariant forall r, c :: 0 <= r < n && 0 <= c < n ==>
        C[r, c] == old(C[r, c]) + if r == i && jj <= c < j then Dot(A, B, r, c, kk, kk + t) else 0
    {
      ghost var beforeK := visited;
      var sum := C[i, j];
      var k := kk;
      while k < kk + t
        invariant kk <= k <= kk + t
        invariant visited == beforeK + Run(KLoop, Pos(ii, jj, kk, i, j), n, t, k)
        invariant sum == old(C[i, j]) + Dot(A, B, i, j, kk, k)
        modifies {}
      {
        sum := sum + A[i, k] * B[k, j];
        KStep(ii, jj, kk, i, j, n, t, k + 1);
        ExtendRun(beforeK, Run(KLoop, Pos(ii, jj, kk, i, j), n, t, k), Run(KLoop, Pos(ii, jj, kk, i, j), n, t, k + 1), [(i, j, k)]);
        visited := visited + [(i, j, k)];
        k := k + 1;
      }
      C[i, j] := sum;
      JStep(ii, jj, kk, i, n, t, j + 1);
      j := j + 1;
    }
  }

  /** When `t` divides both `a` and `n` and `a < n`, the block starting at `a` ends at or before `n`. */
  lemma {:induction false} BlockFits(a: int, n: int, t: int)
    requires t > 0 && MultipleOf(a, t) && MultipleOf(n, t) && a < n
    ensures a + t <= n
    decreases n
  {
    if a > 0 {
      BlockFits(a - t, n - t, t);
    }
  }

  /**
   * The `kk` loop of the blocked multiplication for row block `ii` and
   * column block `jj`: one block pass per reduction block, in increasing
   * order. Each cell of the `t` x `t` block gains its full dot product;
   * every other cell is left as it was. The ghost result is the sequence of
   * `(i, j, k)` the innermost loop visits.
   */
  method ReductionBlocks(n: nat, t: nat, A: array2<int>, B: array2<int>, C: array2<int>, ii: nat, jj: nat)
    returns (ghost visited: seq<Triple>)
    requires t > 0 && MultipleOf(n, t)
    requires Square(A, n) && Square(B, n) && Square(C, n)
    requires C != A && C != B
    requires ii + t <= n && jj + t <= n
    modifies C
    ensures forall r, c :: 0 <= r < n && 0 <= c < n ==>
      C[r, c] == old(C[r, c]) + if ii <= r < ii + t && jj <= c < jj + t then Dot(A, B, r, c, 0, n) else 0
    ensures visited == Run(KKLoop, Pos(ii, jj, 0, 0, 0), n, t, n)
  {
    visited := [];
    var kk := 0;
    while kk < n
      invariant kk <= n && MultipleOf(kk, t)
      invariant visited == Run(KKLoop, Pos(ii, jj, 0, 0, 0), n, t, kk)
      invariant forall r, c :: 0 <= r < n && 0 <= c < n ==>
        C[r, c] == old(C[r, c]) + if ii <= r < ii + t && jj <= c < jj + t then Dot(A, B, r, c, 0, kk) else 0
    {
      BlockFits(kk, n, t);
      label beforePass:
      ghost var pass := BlockPass(n, t, A, B, C, ii, jj, kk);
      KKStep(ii, jj, n, t, kk + t);
      visited := visited + pass;
      forall r, c | 0 <= r < n && 0 <= c < n
        ensures C[r, c] == old(C[r, c]) + if ii <= r < ii + t && jj <= c < jj + t then Dot(A, B, r, c, 0, kk + t) else 0
      {
        assert old@beforePass(C[r, c]) == old(C[r, c]) + if ii <= r < ii + t && jj <= c < jj + t then Dot(A, B, r, c, 0, kk) else 0;
        if ii <= r < ii + t && jj <= c < jj + t {
          DotSplit(A, B, r, c, 0, kk, kk + t);
        }
      }
      kk := kk + t;
    }
  }

  /**
   * The `jj` loop of the blocked multiplication for row block `ii`: the
   * reduction blocks of every column block, left to right. Each row of the
   * row block gains its full dot products; every other row is left as it
   * was. The ghost result is the sequence of `(i, j, k)` the innermost loop
   * visits.
   */
  method ColumnBlocks(n: nat, t: nat, A: array2<int>, B: array2<int>, C: array2<int>, ii: nat)
    returns (ghost visited: seq<Triple>)
    requires t > 0 && MultipleOf(n, t)
    requires Square(A, n) && Square(B, n) && Square(C, n)
    requires C != A && C != B
    requires ii + t <= n
    modifies C
    ensures forall r, c :: 0 <= r < n && 0 <= c < n ==>
      C[r, c] == old(C[r, c]) + if ii <= r < ii + t then Dot(A, B, r, c, 0, n) else 0
    ensures visited == Run(JJLoop, Pos(ii, 0, 0, 0, 0), n, t, n)
  {
    visited := [];
    var jj := 0;
    while jj < n
      invariant jj <= n && MultipleOf(jj, t)
      invariant visited == Run(JJLoop, Pos(ii, 0, 0, 0, 0), n, t, jj)
      invariant forall r, c :: 0 <= r < n && 0 <= c < n ==>
        C[r, c] == old(C[r, c]) + if ii <= r < ii + t && c < jj then Dot(A, B, r, c, 0, n) else 0
    {
      BlockFits(jj, n, t);
      ghost var blocks := ReductionBlocks(n, t, A, B, C, ii, jj);
      JJStep(ii, n, t, jj + t);
      visited := visited + blocks;
      jj := jj + t;
    }
  }

  /**
   * The blocked multiplication. It accumulates: every cell of `C` ends up
   * as its old value plus the full dot product, so it computes the product
   * only when `C` starts at zero. The ghost result records every `(i, j, k)`
   * the innermost loop visits, in order; it is the iteration space
   * `TiledTrace(n, t)`.
   */
  method TiledMatMul(n: nat, t: nat, A: array2<int>, B: array2<int>, C: array2<int>) returns (ghost trace: seq<Triple>)
    requires t > 0 && n % t == 0
    requires Square(A, n) && Square(B, n) && Square(C, n)
    requires C != A && C != B
    modifies C
    ensures forall i, j :: 0 <= i < n && 0 <= j < n ==> C[i, j] == old(C[i, j]) + Dot(A, B, i, j, 0, n)
    ensures trace == TiledTrace(n, t)
  {
    BlockEndIsN(n, t);
    MultipleOfMod(n, t);
    trace := [];
    var ii := 0;
    while ii < n
      invariant ii <= n && MultipleOf(ii, t)
      invariant trace == Run(IILoop, Pos(0, 0, 0, 0, 0), n, t, ii)
      invariant forall r, c :: 0 <= r < n && 0 <= c < n ==>
        C[r, c] == old(C[r, c]) + if r < ii then Dot(A, B, r, c, 0, n) else 0
    {
      BlockFits(ii, n, t);
      ghost var rows := ColumnBlocks(n, t, A, B, C, ii);
      IIStep(n, t, ii + t);
      trace := trace + rows;
      ii := ii + t;
    }
  }
}
