/**
 * The iteration space of the blocked multiplication loop nest.
 *
 * The tiled kernel steps `ii`, `jj` and `kk` from 0 by the block size `t`
 * while they are below `n`, and for each block runs `i` over
 * `[ii, ii + t)`, `j` over `[jj, jj + t)` and `k` over `[kk, kk + t)`.
 * Each innermost iteration reads `A[i][k]` and `B[k][j]`; `C[i][j]` is read
 * before the `k` loop of its `j` iteration and written after it. As `t > 0`,
 * that `k` loop runs at least once, so the sequence of triples `(i, j, k)`
 * the innermost loop visits, in order, covers the whole footprint of the
 * kernel. `Run` gives that sequence one loop level at a
 * time, as "the iterations so far, then everything one more value of the
 * loop variable runs", which is how the kernels' own loop invariants use it.
 * The i-j-k kernel's nest is the same `i`, `j` and `k` loops over a single
 * block of size `n`.
 */
module Tiling {
  import opened Arith

  /** One innermost iteration: row `i`, column `j`, reduction index `k`. */
  type Triple = (int, int, int)

  /**
   * The six loops of the blocked kernel, innermost first: the element
   * loops `k`, `j`, `i` and the block loops `kk`, `jj`, `ii`.
   */
  datatype Loop = KLoop | JLoop | ILoop | KKLoop | JJLoop | IILoop

  /**
   * The values of the enclosing loop variables when a loop starts. A
   * variable whose loop has not been entered yet holds 0.
   */
  datatype Pos = Pos(ii: int, jj: int, kk: int, i: int, j: int)

  /** Nesting depth, counted from the innermost loop. */
  function Rank(l: Loop): nat
  {
    match l
    case KLoop => 0
    case JLoop => 1
    case ILoop => 2
    case KKLoop => 3
    case JJLoop => 4
    case IILoop => 5
  }

  /** A loop's first value: an element loop starts at its block's start, a block loop at 0. */
  function Start(l: Loop, at: Pos): int
  {
    match l
    case KLoop => at.kk
    case JLoop => at.jj
    case ILoop => at.ii
    case _ => 0
  }

  /** A loop's increment: 1 for an element loop, the block size `t` for a block loop. */
  function Step(l: Loop, t: int): int
  {
    match l
    case KLoop => 1
    case JLoop => 1
    case ILoop => 1
    case _ => t
  }

  /**
   * The innermost iterations that loop `l`, entered at `at`, runs for its
   * values below `end`, in order: the run for the values before the last
   * one, then the whole inner loop for the last one. An element loop runs
   * to the end of its block (`+ t`); a block loop runs to `e`, the value
   * where the block loops stop.
   */
  function Run(l: Loop, at: Pos, e: int, t: int, end: int): seq<Triple>
    requires Step(l, t) > 0
    decreases Rank(l), end - Start(l, at)
  {
    if end <= Start(l, at) then []
    else
      var x := end - Step(l, t);
      Run(l, at, e, t, x) +
        match l
        case KLoop => [(at.i, at.j, x)]
        case JLoop => Run(KLoop, Pos(at.ii, at.jj, at.kk, at.i, x), e, t, at.kk + t)
        case ILoop => Run(JLoop, Pos(at.ii, at.jj, at.kk, x, 0), e, t, at.jj + t)
        case KKLoop => Run(ILoop, Pos(at.ii, at.jj, x, 0, 0), e, t, at.ii + t)
        case JJLoop => Run(KKLoop, Pos(at.ii, x, 0, 0, 0), e, t, e)
        case IILoop => Run(JJLoop, Pos(x, 0, 0, 0, 0), e, t, e)
  }

  /**
   * The value at which a loop `for (x = from; x < n; x += t)` stops:
   * the first of `from`, `from + t`, `from + 2t`, ... that is not below `n`.
   * The blocks such a loop starts cover `[from, BlockEnd(from, n, t))`.
   */
  function BlockEnd(from: int, n: int, t: int): (r: int)
    requires t > 0
    ensures r >= from && r >= n
    decreases n - from
  {
    if from >= n then from else BlockEnd(from + t, n, t)
  }

  /**
   * Every triple the tiled kernel visits for dimension `n` and block size
   * `t`, in visiting order. The three block loops all stop at the same
   * value `BlockEnd(0, n, t)`.
   */
  function TiledTrace(n: int, t: int): seq<Triple>
    requires t > 0
  {
    var e := BlockEnd(0, n, t);
    Run(IILoop, Pos(0, 0, 0, 0, 0), e, t, e)
  }

  /**
   * Every triple the i-j-k kernel visits for dimension `n`, in visiting
   * order: the blocked nest's own `i`, `j` and `k` loops over a single
   * block of size `n`.
   */
  function BaselineTrace(n: int): seq<Triple>
  {
    Run(ILoop, Pos(0, 0, 0, 0, 0), n, n, n)
  }

  /**
   * `x` is a non-negative multiple of `t`: one of 0, t, 2t, ... . Written
   * as a recursion so that stepping back one block stays linear arithmetic.
   */
  predicate MultipleOf(x: int, t: int)
    requires t > 0
    decreases x
  {
    x == 0 || (x > 0 && MultipleOf(x - t, t))
  }

  /**
   * Extending a run by one more piece extends any trace that ends with
   * that run by the same piece.
   */
  lemma ExtendRun(before: seq<Triple>, run: seq<Triple>, next: seq<Triple>, piece: seq<Triple>)
    requires next == run + piece
    ensures before + next == (before + run) + piece
  {
  }

  /** How many times `p` occurs in `s`. */
  function Count(s: seq<Triple>, p: Triple): nat
  {
    CountBelow(s, p, |s|)
  }

  /** How many times `p` occurs among the first `m` elements of `s`. */
  function CountBelow(s: seq<Triple>, p: Triple, m: nat): nat
    requires m <= |s|
  {
    if m == 0 then 0 else CountBelow(s, p, m - 1) + if s[m - 1] == p then 1 else 0
  }


  // ---------------------------------------------------------------------
  // Where the block loops stop

  /**
   * The stepped loop stops at a value congruent to its start, not below
   * `n`, less than one block past `n`, and exactly at `n` precisely when
   * the distance from the start to `n` is a whole number of blocks.
   */
  lemma {:induction false} BlockEndFacts(from: int, n: int, t: int)
    requires t > 0 && from <= n
    ensures var e := BlockEnd(from, n, t);
      e % t == from % t && n <= e < n + t && (e == n <==> (n - from) % t == 0)
    decreases n - from
  {
    ModShift(from, t);
    if from < n {
      if from + t <= n {
        BlockEndFacts(from + t, n, t);
        ModShift(n - (from + t), t);
      } else {
        DivModUnique(n - from, t, 0, n - from);
      }
    }
  }

  /** The loops over block starts stop exactly at `n` if and only if `t` divides `n`. */
  lemma BlockEndIsN(n: nat, t: int)
    requires t > 0
    ensures BlockEnd(0, n, t) % t == 0 && n <= BlockEnd(0, n, t) < n + t
    ensures BlockEnd(0, n, t) == n <==> n % t == 0
  {
    BlockEndFacts(0, n, t);
  }

  /** The recursive description of the multiples of `t` agrees with the remainder. */
  lemma {:induction false} MultipleOfMod(x: int, t: int)
    requires t > 0 && x >= 0
    ensures MultipleOf(x, t) <==> x % t == 0
    decreases x
  {
    if x > 0 {
      if x - t >= 0 {
        MultipleOfMod(x - t, t);
        ModShift(x - t, t);
      } else {
        DivModUnique(x, t, 0, x);
      }
    }
  }

  // ---------------------------------------------------------------------
  // One more iteration of each loop

  // Each lemma below is one unfolding of `Run`, with the enclosing loop
  // variables written out: the run of a loop up to `end` is its run up to
  // the previous value, followed by everything the last value runs.

  lemma KStep(ii: int, jj: int, kk: int, i: int, j: int, e: int, t: int, end: int)
    requires kk < end
    ensures Run(KLoop, Pos(ii, jj, kk, i, j), e, t, end)
         == Run(KLoop, Pos(ii, jj, kk, i, j), e, t, end - 1) + [(i, j, end - 1)]
  {
  }

  lemma JStep(ii: int, jj: int, kk: int, i: int, e: int, t: int, end: int)
    requires jj < end
    ensures Run(JLoop, Pos(ii, jj, kk, i, 0), e, t, end)
         == Run(JLoop, Pos(ii, jj, kk, i, 0), e, t, end - 1) + Run(KLoop, Pos(ii, jj, kk, i, end - 1), e, t, kk + t)
  {
  }

  lemma IStep(ii: int, jj: int, kk: int, e: int, t: int, end: int)
    requires ii < end
    ensures Run(ILoop, Pos(ii, jj, kk, 0, 0), e, t, end)
         == Run(ILoop, Pos(ii, jj, kk, 0, 0), e, t, end - 1) + Run(JLoop, Pos(ii, jj, kk, end - 1, 0), e, t, jj + t)
  {
  }

  lemma KKStep(ii: int, jj: int, e: int, t: int, end: int)
    requires t > 0 && 0 < end
    ensures Run(KKLoop, Pos(ii, jj, 0, 0, 0), e, t, end)
         == Run(KKLoop, Pos(ii, jj, 0, 0, 0), e, t, end - t) + Run(ILoop, Pos(ii, jj, end - t, 0, 0), e, t, ii + t)
  {
  }

  lemma JJStep(ii: int, e: int, t: int, end: int)
    requires t > 0 && 0 < end
    ensures Run(JJLoop, Pos(ii, 0, 0, 0, 0), e, t, end)
         == Run(JJLoop, Pos(ii, 0, 0, 0, 0), e, t, end - t) + Run(KKLoop, Pos(ii, end - t, 0, 0, 0), e, t, e)
  {
  }

  lemma IIStep(e: int, t: int, end: int)
    requires t > 0 && 0 < end
    ensures Run(IILoop, Pos(0, 0, 0, 0, 0), e, t, end)
         == Run(IILoop, Pos(0, 0, 0, 0, 0), e, t, end - t) + Run(JJLoop, Pos(end - t, 0, 0, 0, 0), e, t, e)
  {
  }

  // ---------------------------------------------------------------------
  // How often each triple is visited, loop level by loop level

  lemma CountConcat(a: seq<Triple>, b: seq<Triple>, p: Triple)
    ensures Count(a + b, p) == Count(a, p) + Count(b, p)
  {
    CountBelowConcat(a, b, p, |b|);
  }

  lemma {:induction false} CountBelowConcat(a: seq<Triple>, b: seq<Triple>, p: Triple, m: nat)
    requires m <= |b|
    ensures CountBelow(a + b, p, |a| + m) == CountBelow(a, p, |a|) + CountBelow(b, p, m)
  {
    if m == 0 {
      CountBelowPrefix(a, b, p, |a|);
    } else {
      CountBelowConcat(a, b, p, m - 1);
    }
  }

  lemma {:induction false} CountBelowPrefix(a: seq<Triple>, b: seq<Triple>, p: Triple, m: nat)
    requires m <= |a|
    ensures CountBelow(a + b, p, m) == CountBelow(a, p, m)
  {
    if m > 0 {
      CountBelowPrefix(a, b, p, m - 1);
    }
  }

  /** `p` lies in the box `[i0, i1) x [j0, j1) x [k0, k1)`. */
  predicate InBox(p: Triple, i0: int, i1: int, j0: int, j1: int, k0: int, k1: int)
  {
    i0 <= p.0 < i1 && j0 <= p.1 < j1 && k0 <= p.2 < k1
  }

  // A run that covers each triple of one box once, followed by a run that
  // covers each triple of the adjacent box of width `w` once, covers each
  // triple of the union of the two boxes once: cut along `i`, `j` or `k`.

  lemma CountSplitI(run: seq<Triple>, front: seq<Triple>, last: seq<Triple>, p: Triple,
                    i0: int, mid: int, w: int, i1: int, j0: int, j1: int, k0: int, k1: int)
    requires run == front + last && i0 <= mid && w >= 0 && i1 == mid + w
    requires Count(front, p) == if InBox(p, i0, mid, j0, j1, k0, k1) then 1 else 0
    requires Count(last, p) == if InBox(p, mid, mid + w, j0, j1, k0, k1) then 1 else 0
    ensures Count(run, p) == if InBox(p, i0, i1, j0, j1, k0, k1) then 1 else 0
  {
    CountConcat(front, last, p);
  }

  lemma CountSplitJ(run: seq<Triple>, front: seq<Triple>, last: seq<Triple>, p: Triple,
                    i0: int, i1: int, j0: int, mid: int, w: int, j1: int, k0: int, k1: int)
    requires run == front + last && j0 <= mid && w >= 0 && j1 == mid + w
    requires Count(front, p) == if InBox(p, i0, i1, j0, mid, k0, k1) then 1 else 0
    requires Count(last, p) == if InBox(p, i0, i1, mid, mid + w, k0, k1) then 1 else 0
    ensures Count(run, p) == if InBox(p, i0, i1, j0, j1, k0, k1) then 1 else 0
  {
    CountConcat(front, last, p);
  }

  lemma CountSplitK(run: seq<Triple>, front: seq<Triple>, last: seq<Triple>, p: Triple,
                    i0: int, i1: int, j0: int, j1: int, k0: int, mid: int, w: int, k1: int)
    requires run == front + last && k0 <= mid && w >= 0 && k1 == mid + w
    requires Count(front, p) == if InBox(p, i0, i1, j0, j1, k0, mid) then 1 else 0
    requires Count(last, p) == if InBox(p, i0, i1, j0, j1, mid, mid + w) then 1 else 0
    ensures Count(run, p) == if InBox(p, i0, i1, j0, j1, k0, k1) then 1 else 0
  {
    CountConcat(front, last, p);
  }

  /** A run of one iteration covers the unit box at its own indices. */
  lemma CountPoint(run: seq<Triple>, i: int, j: int, k: int, p: Triple)
    requires run == [(i, j, k)]
    ensures Count(run, p) == if InBox(p, i, i + 1, j, j + 1, k, k + 1) then 1 else 0
  {
    assert Count(run, p) == CountBelow(run, p, 0) + if run[0] == p then 1 else 0;
    assert InBox(p, i, i + 1, j, j + 1, k, k + 1) <==> p == (i, j, k);
  }

  /** An empty run covers nothing; an empty range makes an empty box. */
  lemma CountEmpty(run: seq<Triple>, p: Triple, i0: int, i1: int, j0: int, j1: int, k0: int, k1: int)
    requires run == [] && (i1 <= i0 || j1 <= j0 || k1 <= k0)
    ensures Count(run, p) == if InBox(p, i0, i1, j0, j1, k0, k1) then 1 else 0
  {
  }

  /** The `k` loop of one cell covers the reduction indices `[kk, end)` of that cell, once each. */
  lemma {:induction false} KRunCount(ii: int, jj: int, kk: int, i: int, j: int, e: int, t: int, end: int, p: Triple)
    requires kk <= end
    ensures Count(Run(KLoop, Pos(ii, jj, kk, i, j), e, t, end), p)
         == if InBox(p, i, i + 1, j, j + 1, kk, end) then 1 else 0
    decreases end - kk
  {
    if kk < end {
      KRunCount(ii, jj, kk, i, j, e, t, end - 1, p);
      KStep(ii, jj, kk, i, j, e, t, end);
      CountPoint([(i, j, end - 1)], i, j, end - 1, p);
      CountSplitK(Run(KLoop, Pos(ii, jj, kk, i, j), e, t, end), Run(KLoop, Pos(ii, jj, kk, i, j), e, t, end - 1),
        [(i, j, end - 1)], p, i, i + 1, j, j + 1, kk, end - 1, 1, end);
    } else {
      CountEmpty(Run(KLoop, Pos(ii, jj, kk, i, j), e, t, end), p, i, i + 1, j, j + 1, kk, end);
    }
  }

  /** The `j` loop of one row covers columns `[jj, end)` of that row, each with the whole reduction block, once each. */
  lemma {:induction false} JRunCount(ii: int, jj: int, kk: int, i: int, e: int, t: int, end: int, p: Triple)
    requires jj <= end && t >= 0
    ensures Count(Run(JLoop, Pos(ii, jj, kk, i, 0), e, t, end), p)
         == if InBox(p, i, i + 1, jj, end, kk, kk + t) then 1 else 0
    decreases end - jj
  {
    if jj < end {
      JRunCount(ii, jj, kk, i, e, t, end - 1, p);
      KRunCount(ii, jj, kk, i, end - 1, e, t, kk + t, p);
      JStep(ii, jj, kk, i, e, t, end);
      CountSplitJ(Run(JLoop, Pos(ii, jj, kk, i, 0), e, t, end), Run(JLoop, Pos(ii, jj, kk, i, 0), e, t, end - 1),
        Run(KLoop, Pos(ii, jj, kk, i, end - 1), e, t, kk + t), p, i, i + 1, jj, end - 1, 1, end, kk, kk + t);
    } else {
      CountEmpty(Run(JLoop, Pos(ii, jj, kk, i, 0), e, t, end), p, i, i + 1, jj, end, kk, kk + t);
    }
  }

  /** The `i` loop covers rows `[ii, end)` of the `t` x `t` x `t` block at `(jj, kk)`, once each. */
  lemma {:induction false} IRunCount(ii: int, jj: int, kk: int, e: int, t: int, end: int, p: Triple)
    requires ii <= end && t >= 0
    ensures Count(Run(ILoop, Pos(ii, jj, kk, 0, 0), e, t, end), p)
         == if InBox(p, ii, end, jj, jj + t, kk, kk + t) then 1 else 0
    decreases end - ii
  {
    if ii < end {
      IRunCount(ii, jj, kk, e, t, end - 1, p);
      JRunCount(ii, jj, kk, end - 1, e, t, jj + t, p);
      IStep(ii, jj, kk, e, t, end);
      CountSplitI(Run(ILoop, Pos(ii, jj, kk, 0, 0), e, t, end), Run(ILoop, Pos(ii, jj, kk, 0, 0), e, t, end - 1),
        Run(JLoop, Pos(ii, jj, kk, end - 1, 0), e, t, jj + t), p, ii, end - 1, 1, end, jj, jj + t, kk, kk + t);
    } else {
      CountEmpty(Run(ILoop, Pos(ii, jj, kk, 0, 0), e, t, end), p, ii, end, jj, jj + t, kk, kk + t);
    }
  }

  /** The `kk` loop covers the reduction indices `[0, end)` of the output block `(ii, jj)`, once each. */
  lemma {:induction false} KKRunCount(ii: int, jj: int, e: int, t: int, end: int, p: Triple)
    requires t > 0 && MultipleOf(end, t)
    ensures Count(Run(KKLoop, Pos(ii, jj, 0, 0, 0), e, t, end), p)
         == if InBox(p, ii, ii + t, jj, jj + t, 0, end) then 1 else 0
    decreases end
  {
    if end > 0 {
      KKRunCount(ii, jj, e, t, end - t, p);
      IRunCount(ii, jj, end - t, e, t, ii + t, p);
      KKStep(ii, jj, e, t, end);
      CountSplitK(Run(KKLoop, Pos(ii, jj, 0, 0, 0), e, t, end), Run(KKLoop, Pos(ii, jj, 0, 0, 0), e, t, end - t),
        Run(ILoop, Pos(ii, jj, end - t, 0, 0), e, t, ii + t), p, ii, ii + t, jj, jj + t, 0, end - t, t, end);
    } else {
      CountEmpty(Run(KKLoop, Pos(ii, jj, 0, 0, 0), e, t, end), p, ii, ii + t, jj, jj + t, 0, end);
    }
  }

  /** The `jj` loop covers the columns `[0, end)` of row block `ii`, over all reduction indices, once each. */
  lemma {:induction false} JJRunCount(ii: int, e: int, t: int, end: int, p: Triple)
    requires t > 0 && MultipleOf(end, t) && MultipleOf(e, t)
    ensures Count(Run(JJLoop, Pos(ii, 0, 0, 0, 0), e, t, end), p)
         == if InBox(p, ii, ii + t, 0, end, 0, e) then 1 else 0
    decreases end
  {
    if end > 0 {
      JJRunCount(ii, e, t, end - t, p);
      KKRunCount(ii, end - t, e, t, e, p);
      JJStep(ii, e, t, end);
      CountSplitJ(Run(JJLoop, Pos(ii, 0, 0, 0, 0), e, t, end), Run(JJLoop, Pos(ii, 0, 0, 0, 0), e, t, end - t),
        Run(KKLoop, Pos(ii, end - t, 0, 0, 0), e, t, e), p, ii, ii + t, 0, end - t, t, end, 0, e);
    } else {
      CountEmpty(Run(JJLoop, Pos(ii, 0, 0, 0, 0), e, t, end), p, ii, ii + t, 0, end, 0, e);
    }
  }

  /** The `ii` loop covers the rows `[0, end)`, over all columns and reduction indices below `e`, once each. */
  lemma {:induction false} IIRunCount(e: int, t: int, end: int, p: Triple)
    requires t > 0 && MultipleOf(end, t) && MultipleOf(e, t)
    ensures Count(Run(IILoop, Pos(0, 0, 0, 0, 0), e, t, end), p)
         == if InBox(p, 0, end, 0, e, 0, e) then 1 else 0
    decreases end
  {
    if end > 0 {
      IIRunCount(e, t, end - t, p);
      JJRunCount(end - t, e, t, e, p);
      IIStep(e, t, end);
      CountSplitI(Run(IILoop, Pos(0, 0, 0, 0, 0), e, t, end), Run(IILoop, Pos(0, 0, 0, 0, 0), e, t, end - t),
        Run(JJLoop, Pos(end - t, 0, 0, 0, 0), e, t, e), p, 0, end - t, t, end, 0, e, 0, e);
    } else {
      CountEmpty(Run(IILoop, Pos(0, 0, 0, 0, 0), e, t, end), p, 0, end, 0, e, 0, e);
    }
  }

  // ---------------------------------------------------------------------
  // How many iterations each loop level runs

  /** The `k` loop of one cell runs `end - kk` iterations. */
  lemma {:induction false} KRunLength(ii: int, jj: int, kk: int, i: int, j: int, e: int, t: int, end: int)
    requires kk <= end
    ensures |Run(KLoop, Pos(ii, jj, kk, i, j), e, t, end)| == end - kk
    decreases end - kk
  {
    if kk < end {
      KRunLength(ii, jj, kk, i, j, e, t, end - 1);
      KStep(ii, jj, kk, i, j, e, t, end);
    }
  }

  /** The `j` loop of one row runs `t` iterations per column. */
  lemma {:induction false} JRunLength(ii: int, jj: int, kk: int, i: int, e: int, t: int, end: int)
    requires jj <= end && t >= 0
    ensures |Run(JLoop, Pos(ii, jj, kk, i, 0), e, t, end)| == (end - jj) * t
    decreases end - jj
  {
    if jj < end {
      JRunLength(ii, jj, kk, i, e, t, end - 1);
      KRunLength(ii, jj, kk, i, end - 1, e, t, kk + t);
      JStep(ii, jj, kk, i, e, t, end);
      AddLayer(jj, end, t);
    }
  }

  /** The `i` loop runs `t * t` iterations per row. */
  lemma {:induction false} IRunLength(ii: int, jj: int, kk: int, e: int, t: int, end: int)
    requires ii <= end && t >= 0
    ensures |Run(ILoop, Pos(ii, jj, kk, 0, 0), e, t, end)| == (end - ii) * (t * t)
    decreases end - ii
  {
    if ii < end {
      IRunLength(ii, jj, kk, e, t, end - 1);
      JRunLength(ii, jj, kk, end - 1, e, t, jj + t);
      IStep(ii, jj, kk, e, t, end);
      AddLayer(ii, end, t * t);
      assert (jj + t - jj) * t == t * t;
    }
  }

  /** The `kk` loop runs `t * t` iterations per reduction index. */
  lemma {:induction false} KKRunLength(ii: int, jj: int, e: int, t: int, end: int)
    requires t > 0 && MultipleOf(end, t)
    ensures |Run(KKLoop, Pos(ii, jj, 0, 0, 0), e, t, end)| == end * (t * t)
    decreases end
  {
    if end > 0 {
      KKRunLength(ii, jj, e, t, end - t);
      IRunLength(ii, jj, end - t, e, t, ii + t);
      KKStep(ii, jj, e, t, end);
      AddBlock(end, t, t * t);
      assert (ii + t - ii) * (t * t) == t * (t * t);
    }
  }

  /** The `jj` loop runs `e * t` iterations per column. */
  lemma {:induction false} JJRunLength(ii: int, e: int, t: int, end: int)
    requires t > 0 && MultipleOf(end, t) && MultipleOf(e, t)
    ensures |Run(JJLoop, Pos(ii, 0, 0, 0, 0), e, t, end)| == end * (e * t)
    decreases end
  {
    if end > 0 {
      JJRunLength(ii, e, t, end - t);
      KKRunLength(ii, end - t, e, t, e);
      JJStep(ii, e, t, end);
      AddBlock(end, t, e * t);
      MulRotate(e, t, t);
    }
  }

  /** The `ii` loop runs `e * e` iterations per row. */
  lemma {:induction false} IIRunLength(e: int, t: int, end: int)
    requires t > 0 && MultipleOf(end, t) && MultipleOf(e, t)
    ensures |Run(IILoop, Pos(0, 0, 0, 0, 0), e, t, end)| == end * (e * e)
    decreases end
  {
    if end > 0 {
      IIRunLength(e, t, end - t);
      JJRunLength(end - t, e, t, e);
      IIStep(e, t, end);
      AddBlock(end, t, e * e);
      MulRotate(e, e, t);
    }
  }

  // ---------------------------------------------------------------------
  // The properties of the two loop nests

  lemma {:induction false} CountBelowMultiplicity(s: seq<Triple>, p: Triple, m: nat)
    requires m <= |s|
    ensures CountBelow(s, p, m) == multiset(s[..m])[p]
  {
    if m > 0 {
      CountBelowMultiplicity(s, p, m - 1);
      assert s[..m] == s[..m - 1] + [s[m - 1]];
    }
  }

  /** `Count` is the multiplicity of `p` in the multiset of the elements of `s`. */
  lemma CountIsMultiplicity(s: seq<Triple>, p: Triple)
    ensures Count(s, p) == multiset(s)[p]
  {
    CountBelowMultiplicity(s, p, |s|);
    assert s[..|s|] == s;
  }

  /**
   * The visit count of every triple in the blocked loop nest: once if each
   * of its coordinates lies below the value where the block loops stop,
   * never otherwise.
   */
  lemma TiledTraceCount(n: nat, t: int, p: Triple)
    requires t > 0
    ensures var e := BlockEnd(0, n, t);
      multiset(TiledTrace(n, t))[p] == if InBox(p, 0, e, 0, e, 0, e) then 1 else 0
  {
    BlockEndIsN(n, t);
    var e := BlockEnd(0, n, t);
    MultipleOfMod(e, t);
    IIRunCount(e, t, e, p);
    CountIsMultiplicity(TiledTrace(n, t), p);
  }

  /**
   * The blocked loop nest visits every `(i, j, k)` with `0 <= i, j, k < n`
   * exactly once, whatever the block size.
   */
  lemma TiledVisitsEachTripleOnce(n: nat, t: int, i: int, j: int, k: int)
    requires t > 0
    requires 0 <= i < n && 0 <= j < n && 0 <= k < n
    ensures multiset(TiledTrace(n, t))[(i, j, k)] == 1
  {
    BlockEndIsN(n, t);
    TiledTraceCount(n, t, (i, j, k));
  }

  /**
   * Every index the blocked loop nest uses lies in `[0, n)` if and only if
   * the block size divides `n`. When it does not, the last block of rows,
   * columns and reduction indices runs past the end of the matrices.
   */
  lemma TiledStaysInBounds(n: nat, t: int)
    requires t > 0
    ensures (forall p :: p in TiledTrace(n, t) ==> 0 <= p.0 < n && 0 <= p.1 < n && 0 <= p.2 < n)
        <==> n % t == 0
  {
    BlockEndIsN(n, t);
    var e := BlockEnd(0, n, t);
    if n % t == 0 {
      forall p | p in TiledTrace(n, t)
        ensures 0 <= p.0 < n && 0 <= p.1 < n && 0 <= p.2 < n
      {
        TiledTraceCount(n, t, p);
      }
    } else {
      var last := (e - 1, e - 1, e - 1);
      TiledTraceCount(n, t, last);
      assert last in TiledTrace(n, t);
    }
  }

  /** When `t` divides `n`, the blocked loop nest runs exactly `n * n * n` innermost iterations. */
  lemma TiledTraceLength(n: nat, t: int)
    requires t > 0 && n % t == 0
    ensures |TiledTrace(n, t)| == n * n * n
  {
    BlockEndIsN(n, t);
    MultipleOfMod(n, t);
    IIRunLength(n, t, n);
  }

  /** The i-j-k loop nest visits every `(i, j, k)` with `0 <= i, j, k < n` exactly once, and nothing else. */
  lemma BaselineTraceCount(n: nat, p: Triple)
    ensures multiset(BaselineTrace(n))[p] == if InBox(p, 0, n, 0, n, 0, n) then 1 else 0
  {
    IRunCount(0, 0, 0, n, n, n, p);
    CountIsMultiplicity(BaselineTrace(n), p);
  }

  /** The i-j-k loop nest runs exactly `n * n * n` innermost iterations. */
  lemma BaselineTraceLength(n: nat)
    ensures |BaselineTrace(n)| == n * n * n
  {
    IRunLength(0, 0, 0, n, n, n);
  }

  /**
   * When `t` divides `n`, the blocked nest performs exactly the
   * multiply-adds of the i-j-k nest, each as often, in another order.
   */
  lemma TiledPermutesBaseline(n: nat, t: int)
    requires t > 0 && n % t == 0
    ensures multiset(TiledTrace(n, t)) == multiset(BaselineTrace(n))
  {
    BlockEndIsN(n, t);
    forall p
      ensures multiset(TiledTrace(n, t))[p] == multiset(BaselineTrace(n))[p]
    {
      TiledTraceCount(n, t, p);
      BaselineTraceCount(n, p);
    }
  }
}
