// jacobi_2d as a whole: every process exchanges its halo and sweeps its own
// block, and the blocks, reassembled at rank 0 as the validation does, are
// the result of the shared-memory program on the reassembled input.
module Jacobi2D {
  import opened Seqs
  import opened ProcessGrid
  import opened Topology
  import opened Gather
  import opened Halo2D
  import Init

  /** `lA[1:-1, 1:-1]` of every rank. */
  function Interiors<T>(bufs: seq<seq<seq<T>>>, m: nat, n: nat): (ts: seq<seq<seq<T>>>)
    requires forall q :: 0 <= q < |bufs| ==> BlockShaped(bufs[q], m, n)
    ensures |ts| == |bufs| && Blocks(ts, m, n)
  {
    seq(|bufs|, q requires 0 <= q < |bufs| => Init.Interior2D(bufs[q], m, n))
  }

  /** The global (Px * lM, Py * lN) array rank 0 reassembles from the
      interiors: Gather, transpose(0, 2, 1, 3), reshape. */
  function Global<T>(bufs: seq<seq<seq<T>>>, m: nat, n: nat, px: nat, py: nat): (g: seq<seq<T>>)
    requires Distributed(bufs, m, n, px, py)
    ensures IsMatrix(g, px * m, py * n)
  {
    ReassembleDefined(Interiors(bufs, m, n), px, py, m, n, px * m, py * n);
    MulRegroup(px, m, py * n);
    Reassemble(Interiors(bufs, m, n), px, py, m, n, px * m, py * n).value
  }

  /** Interior cell (li + 1, lj + 1) of process (pi, pj) is global cell
      (l2g(li, pi, lM), l2g(lj, pj, lN)). */
  lemma GlobalAt<T>(bufs: seq<seq<seq<T>>>, m: nat, n: nat, px: nat, py: nat, pi: nat, li: nat, pj: nat, lj: nat)
    requires Distributed(bufs, m, n, px, py) && pi < px && li < m && pj < py && lj < n
    ensures RankOf(pi, pj, py) < |bufs| && 0 <= L2G(li, pi, m) < px * m && 0 <= L2G(lj, pj, n) < py * n
    ensures var row := Global(bufs, m, n, px, py)[L2G(li, pi, m)];
            var blk := bufs[RankOf(pi, pj, py)];
            row[L2G(lj, pj, n)] == blk[li + 1][lj + 1]
  {
    RankOfInGrid(pi, pj, px, py);
    L2GRoundTrip(li, pi, m, px);
    L2GRoundTrip(lj, pj, n, py);
    var ts := Interiors(bufs, m, n);
    var r := RankOf(pi, pj, py);
    assert ts[r][li][lj] == bufs[r][li + 1][lj + 1];
    ReassembleAt(ts, px, py, m, n, pi, li, pj, lj);
  }

  /** A round changes ghost cells only, so the reassembled array stays. */
  lemma ExchangeKeepsGlobal<T>(bufs: seq<seq<seq<T>>>, m: nat, n: nat, px: nat, py: nat)
    requires Distributed(bufs, m, n, px, py)
    ensures Global(Exchanged(bufs, m, n, px, py), m, n, px, py) == Global(bufs, m, n, px, py)
  {
    var ex := Exchanged(bufs, m, n, px, py);
    InteriorKept(bufs, m, n, px, py);
    forall q | 0 <= q < |bufs|
      ensures Interiors(ex, m, n)[q] == Interiors(bufs, m, n)[q]
    {
      assert BlockShaped(ex[q], m, n) && BlockShaped(bufs[q], m, n);
      var x, y := Interiors(ex, m, n)[q], Interiors(bufs, m, n)[q];
      forall i | 0 <= i < m
        ensures x[i] == y[i]
      {
        assert IsMatrix(x, m, n) && IsMatrix(y, m, n);
        forall j | 0 <= j < n
          ensures x[i][j] == y[i][j]
        {
          assert ex[q][i + 1][j + 1] == bufs[q][i + 1][j + 1];
        }
      }
    }
    assert Interiors(ex, m, n) == Interiors(bufs, m, n);
  }

  /** One sweep of `jacobi_2d_shmem` on the whole (rows, cols) array:
      `B[1:-1, 1:-1] = f(A[1:-1, 1:-1], A[1:-1, :-2], A[1:-1, 2:], A[2:, 1:-1], A[:-2, 1:-1])`,
      cell by cell. */
  function SharedSweep<T>(ga: seq<seq<T>>, gb: seq<seq<T>>, rows: int, cols: int, f: (T, T, T, T, T) -> T): (r: seq<seq<T>>)
    requires IsMatrix(ga, rows, cols) && IsMatrix(gb, rows, cols)
    ensures IsMatrix(r, rows, cols)
  {
    seq(rows, g requires 0 <= g < rows =>
      seq(|ga[g]|, h requires 0 <= h < cols =>
        if 1 <= g < rows - 1 && 1 <= h < cols - 1
        then f(ga[g][h], ga[g][h - 1], ga[g][h + 1], ga[g + 1][h], ga[g - 1][h])
        else gb[g][h]))
  }

  /** A cell of the cellwise shared sweep is the same cell of the slice
      program on the whole array. */
  lemma SharedCellIsSliceCell<T>(ga: seq<seq<T>>, gb: seq<seq<T>>, rows: int, cols: int, f: (T, T, T, T, T) -> T,
                                 g: nat, h: nat)
    requires IsMatrix(ga, rows, cols) && IsMatrix(gb, rows, cols) && rows >= 2 && cols >= 2
    requires g < rows && h < cols
    ensures BlockShaped(ga, rows - 2, cols - 2) && BlockShaped(gb, rows - 2, cols - 2)
    ensures SharedSweep(ga, gb, rows, cols, f)[g][h] == Sweep2D(ga, gb, rows - 2, cols - 2, Offsets(0, 0, 0, 0), f)[g][h]
  {
    SharedSweepAt(ga, gb, rows, cols, f, g, h);
    SweepCell(ga, gb, rows - 2, cols - 2, Offsets(0, 0, 0, 0), f, g, h);
  }

  /** The cellwise shared sweep is the slice program: the offset-free sweep
      of the whole array seen as one block with a one-cell border. */
  lemma SharedSweepIsSliceSweep<T>(ga: seq<seq<T>>, gb: seq<seq<T>>, rows: int, cols: int, f: (T, T, T, T, T) -> T)
    requires IsMatrix(ga, rows, cols) && IsMatrix(gb, rows, cols) && rows >= 2 && cols >= 2
    ensures BlockShaped(ga, rows - 2, cols - 2) && BlockShaped(gb, rows - 2, cols - 2)
    ensures SharedSweep(ga, gb, rows, cols, f) == Sweep2D(ga, gb, rows - 2, cols - 2, Offsets(0, 0, 0, 0), f)
  {
    var lhs, rhs := SharedSweep(ga, gb, rows, cols, f), Sweep2D(ga, gb, rows - 2, cols - 2, Offsets(0, 0, 0, 0), f);
    forall g | 0 <= g < rows
      ensures lhs[g] == rhs[g]
    {
      var x, y := lhs[g], rhs[g];
      forall h | 0 <= h < cols
        ensures x[h] == y[h]
      {
        SharedCellIsSliceCell(ga, gb, rows, cols, f, g, h);
      }
    }
  }

  /** Every process sweeps its own block with its own offsets. */
  function LocalSweeps<T>(abufs: seq<seq<seq<T>>>, bbufs: seq<seq<seq<T>>>, m: nat, n: nat, px: nat, py: nat,
                          f: (T, T, T, T, T) -> T): (res: seq<seq<seq<T>>>)
    requires Distributed(abufs, m, n, px, py) && Distributed(bbufs, m, n, px, py)
    ensures Distributed(res, m, n, px, py)
  {
    seq(|bbufs|, q requires 0 <= q < |bbufs| =>
      Sweep2D(abufs[q], bbufs[q], m, n, OffsetsOf(NeighborsOf(q, px, py)), f))
  }

  /** Along one axis, local index i of block p is written by the local sweep
      (offset 1 on an edge block) exactly when its global index is neither
      the first nor the last. */
  lemma AxisWritten(p: nat, parts: nat, l: nat, i: nat)
    requires p < parts && i < l
    ensures var lo, hi := if p == 0 then 1 else 0, if p == parts - 1 then 1 else 0;
            (lo <= i <==> 1 <= L2G(i, p, l)) && (i < l - hi <==> L2G(i, p, l) < parts * l - 1)
  {
    MulMonotone(p + 1, parts, l);
    if 0 < p {
      MulMonotone(1, p, l);
    }
    if p + 1 < parts {
      MulMonotone(p + 2, parts, l);
    }
  }

  /** Names interior cell (li, lj) of process (pi, pj). It always holds; it
      serves as the trigger of the layout in Reassembles, so that the layout
      is instantiated for a cell only where ReassembledAt asks for it. */
  predicate CellOf(pi: nat, li: nat, pj: nat, lj: nat)
  {
    true
  }

  /** `ga` is the array rank 0 reassembles from the interiors of `bufs`:
      interior cell (li + 1, lj + 1) of process (pi, pj) sits at global cell
      (l2g(li, pi, lM), l2g(lj, pj, lN)). */
  ghost predicate Reassembles<T>(ga: seq<seq<T>>, bufs: seq<seq<seq<T>>>, m: nat, n: nat, px: nat, py: nat)
    requires Distributed(bufs, m, n, px, py)
  {
    && IsMatrix(ga, px * m, py * n)
    && forall pi: nat, li: nat, pj: nat, lj: nat {:trigger CellOf(pi, li, pj, lj)} ::
         CellOf(pi, li, pj, lj) && pi < px && li < m && pj < py && lj < n ==>
           && 0 <= L2G(li, pi, m) < px * m && 0 <= L2G(lj, pj, n) < py * n && RankOf(pi, pj, py) < |bufs|
           && ga[L2G(li, pi, m)][L2G(lj, pj, n)] == bufs[RankOf(pi, pj, py)][li + 1][lj + 1]
  }

  /** The reassembled global array is laid out as l2g says. */
  lemma GlobalReassembles<T>(bufs: seq<seq<seq<T>>>, m: nat, n: nat, px: nat, py: nat)
    requires Distributed(bufs, m, n, px, py)
    ensures Reassembles(Global(bufs, m, n, px, py), bufs, m, n, px, py)
  {
    var ga := Global(bufs, m, n, px, py);
    forall pi: nat, li: nat, pj: nat, lj: nat | CellOf(pi, li, pj, lj) && pi < px && li < m && pj < py && lj < n
      ensures && 0 <= L2G(li, pi, m) < px * m && 0 <= L2G(lj, pj, n) < py * n && RankOf(pi, pj, py) < |bufs|
              && ga[L2G(li, pi, m)][L2G(lj, pj, n)] == bufs[RankOf(pi, pj, py)][li + 1][lj + 1]
    {
      GlobalAt(bufs, m, n, px, py, pi, li, pj, lj);
    }
  }

  /** One cell of a reassembled array. */
  lemma ReassembledAt<T>(ga: seq<seq<T>>, bufs: seq<seq<seq<T>>>, m: nat, n: nat, px: nat, py: nat,
                         pi: nat, li: nat, pj: nat, lj: nat)
    requires Distributed(bufs, m, n, px, py) && Reassembles(ga, bufs, m, n, px, py)
    requires pi < px && li < m && pj < py && lj < n
    ensures 0 <= L2G(li, pi, m) < px * m && 0 <= L2G(lj, pj, n) < py * n && RankOf(pi, pj, py) < |bufs|
    ensures ga[L2G(li, pi, m)][L2G(lj, pj, n)] == bufs[RankOf(pi, pj, py)][li + 1][lj + 1]
  {
    assert CellOf(pi, li, pj, lj);
  }

  /** A round leaves interior cell (li + 1, lj + 1) of process (pi, pj) as
      it is, and that cell is its global cell. */
  lemma CenterOperand<T>(ga: seq<seq<T>>, bufs: seq<seq<seq<T>>>, m: nat, n: nat, px: nat, py: nat, pi: nat, li: nat, pj: nat, lj: nat)
    requires Distributed(bufs, m, n, px, py) && Reassembles(ga, bufs, m, n, px, py)
    requires pi < px && li < m && pj < py && lj < n
    ensures L2G(li, pi, m) < px * m && L2G(lj, pj, n) < py * n && RankOf(pi, pj, py) < |bufs|
    ensures Exchanged(bufs, m, n, px, py)[RankOf(pi, pj, py)][li + 1][lj + 1]
            == ga[L2G(li, pi, m)][L2G(lj, pj, n)]
  {
    var r := RankOf(pi, pj, py);
    RankOfInGrid(pi, pj, px, py);
    ReassembledAt(ga, bufs, m, n, px, py, pi, li, pj, lj);
    ExchangeOnGrid(bufs, m, n, px, py, r, li + 1, lj + 1);
    assert Exchanged(bufs, m, n, px, py)[r][li + 1][lj + 1] == bufs[r][li + 1][lj + 1];
  }

  /** The cell west of interior cell (li + 1, lj + 1) after a round: the
      block's own cell, or on the first column the east interior column of
      the west neighbour. */
  lemma ExchangedWest<T>(bufs: seq<seq<seq<T>>>, m: nat, n: nat, px: nat, py: nat, pi: nat, li: nat, pj: nat, lj: nat)
    requires Distributed(bufs, m, n, px, py) && pi < px && li < m && pj < py && lj < n
    requires lj > 0 || pj > 0
    ensures RankOf(pi, pj, py) < |bufs| && (lj == 0 ==> RankOf(pi, pj - 1, py) < |bufs|)
    ensures Exchanged(bufs, m, n, px, py)[RankOf(pi, pj, py)][li + 1][lj]
            == if lj > 0 then bufs[RankOf(pi, pj, py)][li + 1][lj] else bufs[RankOf(pi, pj - 1, py)][li + 1][n]
  {
    RankOfInGrid(pi, pj, px, py);
    ExchangeOnGrid(bufs, m, n, px, py, RankOf(pi, pj, py), li + 1, lj);
  }

  /** The cell east of interior cell (li + 1, lj + 1) after a round. */
  lemma ExchangedEast<T>(bufs: seq<seq<seq<T>>>, m: nat, n: nat, px: nat, py: nat, pi: nat, li: nat, pj: nat, lj: nat)
    requires Distributed(bufs, m, n, px, py) && pi < px && li < m && pj < py && lj < n
    requires lj + 1 < n || pj + 1 < py
    ensures RankOf(pi, pj, py) < |bufs| && (lj + 1 == n ==> RankOf(pi, pj + 1, py) < |bufs|)
    ensures Exchanged(bufs, m, n, px, py)[RankOf(pi, pj, py)][li + 1][lj + 2]
            == if lj + 1 < n then bufs[RankOf(pi, pj, py)][li + 1][lj + 2] else bufs[RankOf(pi, pj + 1, py)][li + 1][1]
  {
    RankOfInGrid(pi, pj, px, py);
    ExchangeOnGrid(bufs, m, n, px, py, RankOf(pi, pj, py), li + 1, lj + 2);
  }

  /** The cell north of interior cell (li + 1, lj + 1) after a round. */
  lemma ExchangedNorth<T>(bufs: seq<seq<seq<T>>>, m: nat, n: nat, px: nat, py: nat, pi: nat, li: nat, pj: nat, lj: nat)
    requires Distributed(bufs, m, n, px, py) && pi < px && li < m && pj < py && lj < n
    requires li > 0 || pi > 0
    ensures RankOf(pi, pj, py) < |bufs| && (li == 0 ==> RankOf(pi - 1, pj, py) < |bufs|)
    ensures Exchanged(bufs, m, n, px, py)[RankOf(pi, pj, py)][li][lj + 1]
            == if li > 0 then bufs[RankOf(pi, pj, py)][li][lj + 1] else bufs[RankOf(pi - 1, pj, py)][m][lj + 1]
  {
    RankOfInGrid(pi, pj, px, py);
    ExchangeOnGrid(bufs, m, n, px, py, RankOf(pi, pj, py), li, lj + 1);
  }

  /** The cell south of interior cell (li + 1, lj + 1) after a round. */
  lemma ExchangedSouth<T>(bufs: seq<seq<seq<T>>>, m: nat, n: nat, px: nat, py: nat, pi: nat, li: nat, pj: nat, lj: nat)
    requires Distributed(bufs, m, n, px, py) && pi < px && li < m && pj < py && lj < n
    requires li + 1 < m || pi + 1 < px
    ensures RankOf(pi, pj, py) < |bufs| && (li + 1 == m ==> RankOf(pi + 1, pj, py) < |bufs|)
    ensures Exchanged(bufs, m, n, px, py)[RankOf(pi, pj, py)][li + 2][lj + 1]
            == if li + 1 < m then bufs[RankOf(pi, pj, py)][li + 2][lj + 1] else bufs[RankOf(pi + 1, pj, py)][1][lj + 1]
  {
    RankOfInGrid(pi, pj, px, py);
    ExchangeOnGrid(bufs, m, n, px, py, RankOf(pi, pj, py), li + 2, lj + 1);
  }

  /** The global cell west of the global index of (li, lj) is held by the
      same block, or on its first column by the west neighbour. */
  lemma GlobalWest<T>(ga: seq<seq<T>>, bufs: seq<seq<seq<T>>>, m: nat, n: nat, px: nat, py: nat, pi: nat, li: nat, pj: nat, lj: nat)
    requires Distributed(bufs, m, n, px, py) && Reassembles(ga, bufs, m, n, px, py)
    requires pi < px && li < m && pj < py && lj < n
    requires 1 <= L2G(lj, pj, n)
    ensures lj > 0 || pj > 0
    ensures L2G(li, pi, m) < px * m && L2G(lj, pj, n) < py * n
    ensures RankOf(pi, pj, py) < |bufs| && (lj == 0 ==> RankOf(pi, pj - 1, py) < |bufs|)
    ensures ga[L2G(li, pi, m)][L2G(lj, pj, n) - 1]
            == if lj > 0 then bufs[RankOf(pi, pj, py)][li + 1][lj] else bufs[RankOf(pi, pj - 1, py)][li + 1][n]
  {
    ReassembledAt(ga, bufs, m, n, px, py, pi, li, pj, lj);
    if lj > 0 {
      ReassembledAt(ga, bufs, m, n, px, py, pi, li, pj, lj - 1);
    } else {
      if pj == 0 {
        assert false;
      }
      ReassembledAt(ga, bufs, m, n, px, py, pi, li, pj - 1, n - 1);
      assert L2G(n - 1, pj - 1, n) == L2G(lj, pj, n) - 1;
    }
  }

  /** The global cell east of the global index of (li, lj). */
  lemma GlobalEast<T>(ga: seq<seq<T>>, bufs: seq<seq<seq<T>>>, m: nat, n: nat, px: nat, py: nat, pi: nat, li: nat, pj: nat, lj: nat)
    requires Distributed(bufs, m, n, px, py) && Reassembles(ga, bufs, m, n, px, py)
    requires pi < px && li < m && pj < py && lj < n
    requires L2G(lj, pj, n) < py * n - 1
    ensures lj + 1 < n || pj + 1 < py
    ensures L2G(li, pi, m) < px * m
    ensures RankOf(pi, pj, py) < |bufs| && (lj + 1 == n ==> RankOf(pi, pj + 1, py) < |bufs|)
    ensures ga[L2G(li, pi, m)][L2G(lj, pj, n) + 1]
            == if lj + 1 < n then bufs[RankOf(pi, pj, py)][li + 1][lj + 2] else bufs[RankOf(pi, pj + 1, py)][li + 1][1]
  {
    ReassembledAt(ga, bufs, m, n, px, py, pi, li, pj, lj);
    if lj + 1 < n {
      ReassembledAt(ga, bufs, m, n, px, py, pi, li, pj, lj + 1);
    } else {
      if pj + 1 >= py {
        MulMonotone(py, pj + 1, n);
        assert false;
      }
      ReassembledAt(ga, bufs, m, n, px, py, pi, li, pj + 1, 0);
      assert L2G(0, pj + 1, n) == L2G(lj, pj, n) + 1;
    }
  }

  /** The global cell north of the global index of (li, lj). */
  lemma GlobalNorth<T>(ga: seq<seq<T>>, bufs: seq<seq<seq<T>>>, m: nat, n: nat, px: nat, py: nat, pi: nat, li: nat, pj: nat, lj: nat)
    requires Distributed(bufs, m, n, px, py) && Reassembles(ga, bufs, m, n, px, py)
    requires pi < px && li < m && pj < py && lj < n
    requires 1 <= L2G(li, pi, m)
    ensures li > 0 || pi > 0
    ensures L2G(li, pi, m) < px * m && L2G(lj, pj, n) < py * n
    ensures RankOf(pi, pj, py) < |bufs| && (li == 0 ==> RankOf(pi - 1, pj, py) < |bufs|)
    ensures ga[L2G(li, pi, m) - 1][L2G(lj, pj, n)]
            == if li > 0 then bufs[RankOf(pi, pj, py)][li][lj + 1] else bufs[RankOf(pi - 1, pj, py)][m][lj + 1]
  {
    ReassembledAt(ga, bufs, m, n, px, py, pi, li, pj, lj);
    if li > 0 {
      ReassembledAt(ga, bufs, m, n, px, py, pi, li - 1, pj, lj);
    } else {
      if pi == 0 {
        assert false;
      }
      ReassembledAt(ga, bufs, m, n, px, py, pi - 1, m - 1, pj, lj);
      assert L2G(m - 1, pi - 1, m) == L2G(li, pi, m) - 1;
    }
  }

  /** The global cell south of the global index of (li, lj). */
  lemma GlobalSouth<T>(ga: seq<seq<T>>, bufs: seq<seq<seq<T>>>, m: nat, n: nat, px: nat, py: nat, pi: nat, li: nat, pj: nat, lj: nat)
    requires Distributed(bufs, m, n, px, py) && Reassembles(ga, bufs, m, n, px, py)
    requires pi < px && li < m && pj < py && lj < n
    requires L2G(li, pi, m) < px * m - 1
    ensures li + 1 < m || pi + 1 < px
    ensures L2G(lj, pj, n) < py * n
    ensures RankOf(pi, pj, py) < |bufs| && (li + 1 == m ==> RankOf(pi + 1, pj, py) < |bufs|)
    ensures ga[L2G(li, pi, m) + 1][L2G(lj, pj, n)]
            == if li + 1 < m then bufs[RankOf(pi, pj, py)][li + 2][lj + 1] else bufs[RankOf(pi + 1, pj, py)][1][lj + 1]
  {
    ReassembledAt(ga, bufs, m, n, px, py, pi, li, pj, lj);
    if li + 1 < m {
      ReassembledAt(ga, bufs, m, n, px, py, pi, li + 1, pj, lj);
    } else {
      if pi + 1 >= px {
        MulMonotone(px, pi + 1, m);
        assert false;
      }
      ReassembledAt(ga, bufs, m, n, px, py, pi + 1, 0, pj, lj);
      assert L2G(0, pi + 1, m) == L2G(li, pi, m) + 1;
    }
  }

  /** After a round, the cell west of interior cell (li + 1, lj + 1) is the
      global cell west of its global index. */
  lemma WestOperand<T>(ga: seq<seq<T>>, bufs: seq<seq<seq<T>>>, m: nat, n: nat, px: nat, py: nat, pi: nat, li: nat, pj: nat, lj: nat)
    requires Distributed(bufs, m, n, px, py) && Reassembles(ga, bufs, m, n, px, py)
    requires pi < px && li < m && pj < py && lj < n
    requires 1 <= L2G(lj, pj, n)
    ensures L2G(li, pi, m) < px * m && L2G(lj, pj, n) < py * n && RankOf(pi, pj, py) < |bufs|
    ensures Exchanged(bufs, m, n, px, py)[RankOf(pi, pj, py)][li + 1][lj]
            == ga[L2G(li, pi, m)][L2G(lj, pj, n) - 1]
  {
    GlobalWest(ga, bufs, m, n, px, py, pi, li, pj, lj);
    ExchangedWest(bufs, m, n, px, py, pi, li, pj, lj);
  }

  /** After a round, the cell east of interior cell (li + 1, lj + 1) is the
      global cell east of its global index. */
  lemma EastOperand<T>(ga: seq<seq<T>>, bufs: seq<seq<seq<T>>>, m: nat, n: nat, px: nat, py: nat, pi: nat, li: nat, pj: nat, lj: nat)
    requires Distributed(bufs, m, n, px, py) && Reassembles(ga, bufs, m, n, px, py)
    requires pi < px && li < m && pj < py && lj < n
    requires L2G(lj, pj, n) < py * n - 1
    ensures L2G(li, pi, m) < px * m && RankOf(pi, pj, py) < |bufs|
    ensures Exchanged(bufs, m, n, px, py)[RankOf(pi, pj, py)][li + 1][lj + 2]
            == ga[L2G(li, pi, m)][L2G(lj, pj, n) + 1]
  {
    GlobalEast(ga, bufs, m, n, px, py, pi, li, pj, lj);
    ExchangedEast(bufs, m, n, px, py, pi, li, pj, lj);
  }

  /** After a round, the cell north of interior cell (li + 1, lj + 1) is the
      global cell north of its global index. */
  lemma NorthOperand<T>(ga: seq<seq<T>>, bufs: seq<seq<seq<T>>>, m: nat, n: nat, px: nat, py: nat, pi: nat, li: nat, pj: nat, lj: nat)
    requires Distributed(bufs, m, n, px, py) && Reassembles(ga, bufs, m, n, px, py)
    requires pi < px && li < m && pj < py && lj < n
    requires 1 <= L2G(li, pi, m)
    ensures L2G(li, pi, m) < px * m && L2G(lj, pj, n) < py * n && RankOf(pi, pj, py) < |bufs|
    ensures Exchanged(bufs, m, n, px, py)[RankOf(pi, pj, py)][li][lj + 1]
            == ga[L2G(li, pi, m) - 1][L2G(lj, pj, n)]
  {
    GlobalNorth(ga, bufs, m, n, px, py, pi, li, pj, lj);
    ExchangedNorth(bufs, m, n, px, py, pi, li, pj, lj);
  }

  /** After a round, the cell south of interior cell (li + 1, lj + 1) is the
      global cell south of its global index. */
  lemma SouthOperand<T>(ga: seq<seq<T>>, bufs: seq<seq<seq<T>>>, m: nat, n: nat, px: nat, py: nat, pi: nat, li: nat, pj: nat, lj: nat)
    requires Distributed(bufs, m, n, px, py) && Reassembles(ga, bufs, m, n, px, py)
    requires pi < px && li < m && pj < py && lj < n
    requires L2G(li, pi, m) < px * m - 1
    ensures L2G(lj, pj, n) < py * n && RankOf(pi, pj, py) < |bufs|
    ensures Exchanged(bufs, m, n, px, py)[RankOf(pi, pj, py)][li + 2][lj + 1]
            == ga[L2G(li, pi, m) + 1][L2G(lj, pj, n)]
  {
    GlobalSouth(ga, bufs, m, n, px, py, pi, li, pj, lj);
    ExchangedSouth(bufs, m, n, px, py, pi, li, pj, lj);
  }

  /** Whether a global index (g, h) of a (rows, cols) array is written by the
      shared-memory sweep: neither on the first or last row nor column. */
  predicate InnerCell(g: int, h: int, rows: int, cols: int)
  {
    1 <= g < rows - 1 && 1 <= h < cols - 1
  }

  /** Interior cell (li + 1, lj + 1) of process r = (pi, pj) is written by
      its local sweep exactly when its global index (g, h) is written by the
      shared sweep. */
  lemma WrittenIffInner(m: nat, n: nat, px: nat, py: nat, pi: nat, li: nat, pj: nat, lj: nat, r: nat, g: int, h: int)
    requires pi < px && li < m && pj < py && lj < n
    requires r == RankOf(pi, pj, py) && g == L2G(li, pi, m) && h == L2G(lj, pj, n)
    ensures r < px * py
    ensures Written(li + 1, lj + 1, m, n, OffsetsOf(NeighborsOf(r, px, py))) <==> InnerCell(g, h, px * m, py * n)
  {
    RankOfInGrid(pi, pj, px, py);
    OffsetsOnEdges(r, px, py);
    AxisWritten(pi, px, m, li);
    AxisWritten(pj, py, n, lj);
  }

  /** The local sweep of process r = (pi, pj) at interior cell
      (li + 1, lj + 1), whose global index is (g, h): the five-point
      expression of its A block where written, B's cell elsewhere. */
  lemma LocalSweepAt<T>(abufs: seq<seq<seq<T>>>, bbufs: seq<seq<seq<T>>>, m: nat, n: nat, px: nat, py: nat,
                        f: (T, T, T, T, T) -> T, pi: nat, li: nat, pj: nat, lj: nat, r: nat, g: int, h: int)
    requires Distributed(abufs, m, n, px, py) && Distributed(bbufs, m, n, px, py)
    requires pi < px && li < m && pj < py && lj < n
    requires r == RankOf(pi, pj, py) && g == L2G(li, pi, m) && h == L2G(lj, pj, n)
    ensures r < |bbufs|
    ensures LocalSweeps(abufs, bbufs, m, n, px, py, f)[r][li + 1][lj + 1]
            == if InnerCell(g, h, px * m, py * n)
               then f(abufs[r][li + 1][lj + 1], abufs[r][li + 1][lj], abufs[r][li + 1][lj + 2],
                      abufs[r][li + 2][lj + 1], abufs[r][li][lj + 1])
               else bbufs[r][li + 1][lj + 1]
  {
    WrittenIffInner(m, n, px, py, pi, li, pj, lj, r, g, h);
    assert LocalSweeps(abufs, bbufs, m, n, px, py, f)[r]
           == Sweep2D(abufs[r], bbufs[r], m, n, OffsetsOf(NeighborsOf(r, px, py)), f);
    SweepCell(abufs[r], bbufs[r], m, n, OffsetsOf(NeighborsOf(r, px, py)), f, li + 1, lj + 1);
  }

  /** After a round, the five cells the stencil reads around interior cell
      (li + 1, lj + 1) are the reassembled cells around its global index. */
  lemma OperandsAt<T>(ga: seq<seq<T>>, abufs: seq<seq<seq<T>>>, m: nat, n: nat, px: nat, py: nat,
                      pi: nat, li: nat, pj: nat, lj: nat)
    requires Distributed(abufs, m, n, px, py) && Reassembles(ga, abufs, m, n, px, py)
    requires pi < px && li < m && pj < py && lj < n
    requires InnerCell(L2G(li, pi, m), L2G(lj, pj, n), px * m, py * n)
    ensures RankOf(pi, pj, py) < |abufs|
    ensures var g, h, a := L2G(li, pi, m), L2G(lj, pj, n), Exchanged(abufs, m, n, px, py)[RankOf(pi, pj, py)];
            && a[li + 1][lj + 1] == ga[g][h] && a[li + 1][lj] == ga[g][h - 1] && a[li + 1][lj + 2] == ga[g][h + 1]
            && a[li + 2][lj + 1] == ga[g + 1][h] && a[li][lj + 1] == ga[g - 1][h]
  {
    CenterOperand(ga, abufs, m, n, px, py, pi, li, pj, lj);
    WestOperand(ga, abufs, m, n, px, py, pi, li, pj, lj);
    EastOperand(ga, abufs, m, n, px, py, pi, li, pj, lj);
    NorthOperand(ga, abufs, m, n, px, py, pi, li, pj, lj);
    SouthOperand(ga, abufs, m, n, px, py, pi, li, pj, lj);
  }

  /** A cell of the cellwise shared sweep. */
  lemma SharedSweepAt<T>(ga: seq<seq<T>>, gb: seq<seq<T>>, rows: int, cols: int, f: (T, T, T, T, T) -> T, g: int, h: int)
    requires IsMatrix(ga, rows, cols) && IsMatrix(gb, rows, cols) && 0 <= g < rows && 0 <= h < cols
    ensures SharedSweep(ga, gb, rows, cols, f)[g][h]
            == if InnerCell(g, h, rows, cols)
               then f(ga[g][h], ga[g][h - 1], ga[g][h + 1], ga[g + 1][h], ga[g - 1][h])
               else gb[g][h]
  {
  }

  /** The blocks `ex` hold, around every interior cell of a process whose
      global index the shared sweep writes, the five cells of `ga` around
      that global index: what a round leaves behind (ExchangedMatches). */
  ghost predicate HaloMatches<T>(ga: seq<seq<T>>, ex: seq<seq<seq<T>>>, m: nat, n: nat, px: nat, py: nat)
    requires Distributed(ex, m, n, px, py)
  {
    && IsMatrix(ga, px * m, py * n)
    && forall pi: nat, li: nat, pj: nat, lj: nat {:trigger CellOf(pi, li, pj, lj)} ::
         CellOf(pi, li, pj, lj) && pi < px && li < m && pj < py && lj < n &&
         InnerCell(L2G(li, pi, m), L2G(lj, pj, n), px * m, py * n) ==>
           && RankOf(pi, pj, py) < |ex|
           && var g, h, a := L2G(li, pi, m), L2G(lj, pj, n), ex[RankOf(pi, pj, py)];
              && a[li + 1][lj + 1] == ga[g][h] && a[li + 1][lj] == ga[g][h - 1] && a[li + 1][lj + 2] == ga[g][h + 1]
              && a[li + 2][lj + 1] == ga[g + 1][h] && a[li][lj + 1] == ga[g - 1][h]
  }

  /** After a round, the halo of every process matches the reassembled array. */
  lemma ExchangedMatches<T>(ga: seq<seq<T>>, abufs: seq<seq<seq<T>>>, m: nat, n: nat, px: nat, py: nat)
    requires Distributed(abufs, m, n, px, py) && Reassembles(ga, abufs, m, n, px, py)
    ensures HaloMatches(ga, Exchanged(abufs, m, n, px, py), m, n, px, py)
  {
    forall pi: nat, li: nat, pj: nat, lj: nat |
      CellOf(pi, li, pj, lj) && pi < px && li < m && pj < py && lj < n &&
      InnerCell(L2G(li, pi, m), L2G(lj, pj, n), px * m, py * n)
      ensures RankOf(pi, pj, py) < |abufs|
      ensures var g, h, a := L2G(li, pi, m), L2G(lj, pj, n), Exchanged(abufs, m, n, px, py)[RankOf(pi, pj, py)];
              && a[li + 1][lj + 1] == ga[g][h] && a[li + 1][lj] == ga[g][h - 1] && a[li + 1][lj + 2] == ga[g][h + 1]
              && a[li + 2][lj + 1] == ga[g + 1][h] && a[li][lj + 1] == ga[g - 1][h]
    {
      OperandsAt(ga, abufs, m, n, px, py, pi, li, pj, lj);
    }
  }

  /** The five cells around interior cell (li + 1, lj + 1) of process
      r = (pi, pj), with global index (g, h), in blocks whose halo matches. */
  lemma HaloAt<T>(ga: seq<seq<T>>, ex: seq<seq<seq<T>>>, m: nat, n: nat, px: nat, py: nat,
                  pi: nat, li: nat, pj: nat, lj: nat, r: nat, g: int, h: int)
    requires Distributed(ex, m, n, px, py) && HaloMatches(ga, ex, m, n, px, py)
    requires pi < px && li < m && pj < py && lj < n
    requires r == RankOf(pi, pj, py) && g == L2G(li, pi, m) && h == L2G(lj, pj, n)
    requires InnerCell(g, h, px * m, py * n)
    ensures r < |ex|
    ensures && ex[r][li + 1][lj + 1] == ga[g][h] && ex[r][li + 1][lj] == ga[g][h - 1]
            && ex[r][li + 1][lj + 2] == ga[g][h + 1] && ex[r][li + 2][lj + 1] == ga[g + 1][h]
            && ex[r][li][lj + 1] == ga[g - 1][h]
  {
    assert CellOf(pi, li, pj, lj);
  }

  /** Cell (g, h) of an array reassembled from `bufs`, the global index of
      interior cell (li + 1, lj + 1) of process r = (pi, pj). */
  lemma ReassembledCell<T>(ga: seq<seq<T>>, bufs: seq<seq<seq<T>>>, m: nat, n: nat, px: nat, py: nat,
                           pi: nat, li: nat, pj: nat, lj: nat, r: nat, g: int, h: int)
    requires Distributed(bufs, m, n, px, py) && Reassembles(ga, bufs, m, n, px, py)
    requires pi < px && li < m && pj < py && lj < n
    requires r == RankOf(pi, pj, py) && g == L2G(li, pi, m) && h == L2G(lj, pj, n)
    ensures 0 <= g < px * m && 0 <= h < py * n && r < |bufs|
    ensures ga[g][h] == bufs[r][li + 1][lj + 1]
  {
    assert CellOf(pi, li, pj, lj);
  }

  /** A cell whose global index is written by the shared sweep: the local
      sweep applies the five-point expression to the cells around it, which
      are the cells of `ga` around that global index, as the shared sweep
      does. */
  lemma InnerCellAt<T>(ga: seq<seq<T>>, gb: seq<seq<T>>, ex: seq<seq<seq<T>>>, bbufs: seq<seq<seq<T>>>,
                       m: nat, n: nat, px: nat, py: nat, f: (T, T, T, T, T) -> T,
                       pi: nat, li: nat, pj: nat, lj: nat, r: nat, g: int, h: int)
    requires Distributed(ex, m, n, px, py) && Distributed(bbufs, m, n, px, py)
    requires HaloMatches(ga, ex, m, n, px, py) && IsMatrix(gb, px * m, py * n)
    requires pi < px && li < m && pj < py && lj < n
    requires r == RankOf(pi, pj, py) && g == L2G(li, pi, m) && h == L2G(lj, pj, n)
    requires InnerCell(g, h, px * m, py * n)
    ensures r < |bbufs|
    ensures LocalSweeps(ex, bbufs, m, n, px, py, f)[r][li + 1][lj + 1] == SharedSweep(ga, gb, px * m, py * n, f)[g][h]
  {
    LocalSweepAt(ex, bbufs, m, n, px, py, f, pi, li, pj, lj, r, g, h);
    HaloAt(ga, ex, m, n, px, py, pi, li, pj, lj, r, g, h);
    SharedSweepAt(ga, gb, px * m, py * n, f, g, h);
  }

  /** A cell on the first or last global row or column keeps B's value, as
      in the shared sweep. */
  lemma OuterCellAt<T>(ga: seq<seq<T>>, gb: seq<seq<T>>, ex: seq<seq<seq<T>>>, bbufs: seq<seq<seq<T>>>,
                       m: nat, n: nat, px: nat, py: nat, f: (T, T, T, T, T) -> T,
                       pi: nat, li: nat, pj: nat, lj: nat, r: nat, g: int, h: int)
    requires Distributed(ex, m, n, px, py) && Distributed(bbufs, m, n, px, py)
    requires IsMatrix(ga, px * m, py * n) && Reassembles(gb, bbufs, m, n, px, py)
    requires pi < px && li < m && pj < py && lj < n
    requires r == RankOf(pi, pj, py) && g == L2G(li, pi, m) && h == L2G(lj, pj, n)
    requires !InnerCell(g, h, px * m, py * n)
    ensures 0 <= g < px * m && 0 <= h < py * n && r < |bbufs|
    ensures LocalSweeps(ex, bbufs, m, n, px, py, f)[r][li + 1][lj + 1] == SharedSweep(ga, gb, px * m, py * n, f)[g][h]
  {
    LocalSweepAt(ex, bbufs, m, n, px, py, f, pi, li, pj, lj, r, g, h);
    ReassembledCell(gb, bbufs, m, n, px, py, pi, li, pj, lj, r, g, h);
    SharedSweepAt(ga, gb, px * m, py * n, f, g, h);
  }

  /** When the halo of `ex` matches `ga`, interior cell (li + 1, lj + 1) of
      the local sweep of process r = (pi, pj) is the cell of the shared sweep
      at its global index (g, h). */
  lemma SweptCellIsGlobal<T>(ga: seq<seq<T>>, gb: seq<seq<T>>, ex: seq<seq<seq<T>>>, bbufs: seq<seq<seq<T>>>,
                             m: nat, n: nat, px: nat, py: nat, f: (T, T, T, T, T) -> T,
                             pi: nat, li: nat, pj: nat, lj: nat, r: nat, g: int, h: int)
    requires Distributed(ex, m, n, px, py) && Distributed(bbufs, m, n, px, py)
    requires HaloMatches(ga, ex, m, n, px, py) && Reassembles(gb, bbufs, m, n, px, py)
    requires pi < px && li < m && pj < py && lj < n
    requires r == RankOf(pi, pj, py) && g == L2G(li, pi, m) && h == L2G(lj, pj, n)
    ensures 0 <= g < px * m && 0 <= h < py * n && r < |bbufs|
    ensures LocalSweeps(ex, bbufs, m, n, px, py, f)[r][li + 1][lj + 1] == SharedSweep(ga, gb, px * m, py * n, f)[g][h]
  {
    ReassembledCell(gb, bbufs, m, n, px, py, pi, li, pj, lj, r, g, h);
    if InnerCell(g, h, px * m, py * n) {
      InnerCellAt(ga, gb, ex, bbufs, m, n, px, py, f, pi, li, pj, lj, r, g, h);
    } else {
      OuterCellAt(ga, gb, ex, bbufs, m, n, px, py, f, pi, li, pj, lj, r, g, h);
    }
  }

  /** One global row of the distributed sweep, reassembled, is that row of
      the shared-memory sweep. */
  lemma DistributedSweepRow<T>(ga: seq<seq<T>>, gb: seq<seq<T>>, gl: seq<seq<T>>,
                               ex: seq<seq<seq<T>>>, bbufs: seq<seq<seq<T>>>, m: nat, n: nat, px: nat, py: nat,
                               f: (T, T, T, T, T) -> T, g: nat)
    requires Distributed(ex, m, n, px, py) && Distributed(bbufs, m, n, px, py)
    requires HaloMatches(ga, ex, m, n, px, py) && Reassembles(gb, bbufs, m, n, px, py)
    requires Reassembles(gl, LocalSweeps(ex, bbufs, m, n, px, py, f), m, n, px, py)
    requires g < px * m
    ensures gl[g] == SharedSweep(ga, gb, px * m, py * n, f)[g]
  {
    var pi, li := Locate(g, m, px);
    forall h: nat | h < py * n
      ensures gl[g][h] == SharedSweep(ga, gb, px * m, py * n, f)[g][h]
    {
      var pj, lj := Locate(h, n, py);
      ReassembledCell(gl, LocalSweeps(ex, bbufs, m, n, px, py, f), m, n, px, py, pi, li, pj, lj, RankOf(pi, pj, py), g, h);
      SweptCellIsGlobal(ga, gb, ex, bbufs, m, n, px, py, f, pi, li, pj, lj, RankOf(pi, pj, py), g, h);
    }
  }

  /** The distributed sweep, reassembled, is the shared-memory sweep of the
      reassembled arrays. */
  lemma DistributedSweep<T>(abufs: seq<seq<seq<T>>>, bbufs: seq<seq<seq<T>>>, m: nat, n: nat, px: nat, py: nat,
                            f: (T, T, T, T, T) -> T)
    requires Distributed(abufs, m, n, px, py) && Distributed(bbufs, m, n, px, py)
    ensures Global(LocalSweeps(Exchanged(abufs, m, n, px, py), bbufs, m, n, px, py, f), m, n, px, py)
            == SharedSweep(Global(abufs, m, n, px, py), Global(bbufs, m, n, px, py), px * m, py * n, f)
  {
    var ex := Exchanged(abufs, m, n, px, py);
    var loc := LocalSweeps(ex, bbufs, m, n, px, py, f);
    var ga, gb, gl := Global(abufs, m, n, px, py), Global(bbufs, m, n, px, py), Global(loc, m, n, px, py);
    GlobalReassembles(abufs, m, n, px, py);
    GlobalReassembles(bbufs, m, n, px, py);
    GlobalReassembles(loc, m, n, px, py);
    ExchangedMatches(ga, abufs, m, n, px, py);
    var rhs := SharedSweep(ga, gb, px * m, py * n, f);
    forall g | 0 <= g < px * m
      ensures gl[g] == rhs[g]
    {
      DistributedSweepRow(ga, gb, gl, ex, bbufs, m, n, px, py, f, g);
    }
  }

  /** One time step of `jacobi_2d_shmem`: sweep A into B, then B into A. */
  function SharedStep<T>(ab: (seq<seq<T>>, seq<seq<T>>), rows: int, cols: int, f: (T, T, T, T, T) -> T)
    : (r: (seq<seq<T>>, seq<seq<T>>))
    requires IsMatrix(ab.0, rows, cols) && IsMatrix(ab.1, rows, cols)
    ensures IsMatrix(r.0, rows, cols) && IsMatrix(r.1, rows, cols)
  {
    var b := SharedSweep(ab.0, ab.1, rows, cols, f);
    (SharedSweep(b, ab.0, rows, cols, f), b)
  }

  /** `k` time steps of the shared-memory program. */
  function SharedRun<T>(a: seq<seq<T>>, b: seq<seq<T>>, rows: int, cols: int, k: nat, f: (T, T, T, T, T) -> T)
    : (r: (seq<seq<T>>, seq<seq<T>>))
    requires IsMatrix(a, rows, cols) && IsMatrix(b, rows, cols)
    ensures IsMatrix(r.0, rows, cols) && IsMatrix(r.1, rows, cols)
  {
    if k == 0 then (a, b) else SharedStep(SharedRun(a, b, rows, cols, k - 1, f), rows, cols, f)
  }

  /** One iteration of the distributed time loop (exchange A, sweep into B,
      exchange B, sweep into A), reassembled, is one time step of the
      shared-memory program. The exchanges write ghost cells in place, so
      the second sweep writes into the exchanged A. */
  lemma DistributedStep<T>(abufs: seq<seq<seq<T>>>, bbufs: seq<seq<seq<T>>>, m: nat, n: nat, px: nat, py: nat,
                           f: (T, T, T, T, T) -> T)
    requires Distributed(abufs, m, n, px, py) && Distributed(bbufs, m, n, px, py)
    ensures var exA := Exchanged(abufs, m, n, px, py);
            var b' := Exchanged(LocalSweeps(exA, bbufs, m, n, px, py, f), m, n, px, py);
            var a' := LocalSweeps(b', exA, m, n, px, py, f);
            (Global(a', m, n, px, py), Global(b', m, n, px, py))
            == SharedStep((Global(abufs, m, n, px, py), Global(bbufs, m, n, px, py)), px * m, py * n, f)
  {
    var exA := Exchanged(abufs, m, n, px, py);
    var b1 := LocalSweeps(exA, bbufs, m, n, px, py, f);
    DistributedSweep(abufs, bbufs, m, n, px, py, f);
    ExchangeKeepsGlobal(abufs, m, n, px, py);
    ExchangeKeepsGlobal(b1, m, n, px, py);
    DistributedSweep(b1, exA, m, n, px, py, f);
  }

  /** Step k + 1 of the shared-memory program follows step k. */
  lemma SharedRunStep<T>(a: seq<seq<T>>, b: seq<seq<T>>, rows: int, cols: int, k: nat, f: (T, T, T, T, T) -> T)
    requires IsMatrix(a, rows, cols) && IsMatrix(b, rows, cols)
    ensures SharedRun(a, b, rows, cols, k + 1, f) == SharedStep(SharedRun(a, b, rows, cols, k, f), rows, cols, f)
  {
  }

  /** One iteration of `for t in range(1, TSTEPS)` of `jacobi_2d_distr`
      on all processes: exchange A, sweep into B, exchange B, sweep into A.
      The exchanges write the ghost rows and columns of A and B in place, so
      the new B is the swept B after its exchange, and the new A is the
      exchanged A with the sweep written into it. Reassembled, it is one time
      step of the shared-memory program. */
  method TimeStep<T>(abufs: seq<seq<seq<T>>>, bbufs: seq<seq<seq<T>>>, m: nat, n: nat, px: nat, py: nat,
                     f: (T, T, T, T, T) -> T)
    returns (abufs': seq<seq<seq<T>>>, bbufs': seq<seq<seq<T>>>)
    requires Distributed(abufs, m, n, px, py) && Distributed(bbufs, m, n, px, py)
    ensures Distributed(abufs', m, n, px, py) && Distributed(bbufs', m, n, px, py)
    ensures bbufs' == Exchanged(LocalSweeps(Exchanged(abufs, m, n, px, py), bbufs, m, n, px, py, f), m, n, px, py)
    ensures abufs' == LocalSweeps(bbufs', Exchanged(abufs, m, n, px, py), m, n, px, py, f)
    ensures (Global(abufs', m, n, px, py), Global(bbufs', m, n, px, py))
            == SharedStep((Global(abufs, m, n, px, py), Global(bbufs, m, n, px, py)), px * m, py * n, f)
  {
    DistributedStep(abufs, bbufs, m, n, px, py, f);
    var exA := ExchangeRound(abufs, m, n, px, py);
    var b1 := LocalSweeps(exA, bbufs, m, n, px, py, f);
    bbufs' := ExchangeRound(b1, m, n, px, py);
    abufs' := LocalSweeps(bbufs', exA, m, n, px, py, f);
  }

  /** `jacobi_2d_distr` on all processes at once, `k` counting the
      iterations of `for t in range(1, TSTEPS)` done. Reassembled, the result
      is the shared-memory program's result on the reassembled input. */
  method Jacobi2D<T>(abufs: seq<seq<seq<T>>>, bbufs: seq<seq<seq<T>>>, m: nat, n: nat, px: nat, py: nat,
                     tsteps: int, f: (T, T, T, T, T) -> T)
    returns (abufs': seq<seq<seq<T>>>, bbufs': seq<seq<seq<T>>>)
    requires Distributed(abufs, m, n, px, py) && Distributed(bbufs, m, n, px, py)
    ensures Distributed(abufs', m, n, px, py) && Distributed(bbufs', m, n, px, py)
    ensures (Global(abufs', m, n, px, py), Global(bbufs', m, n, px, py))
            == SharedRun(Global(abufs, m, n, px, py), Global(bbufs, m, n, px, py), px * m, py * n,
                         Iterations(1, tsteps), f)
  {
    abufs', bbufs' := abufs, bbufs;
    var k := 0;
    while k < Iterations(1, tsteps)
      invariant k <= Iterations(1, tsteps)
      invariant Distributed(abufs', m, n, px, py) && Distributed(bbufs', m, n, px, py)
      invariant (Global(abufs', m, n, px, py), Global(bbufs', m, n, px, py))
                == SharedRun(Global(abufs, m, n, px, py), Global(bbufs, m, n, px, py), px * m, py * n, k, f)
      decreases Iterations(1, tsteps) - k
    {
      SharedRunStep(Global(abufs, m, n, px, py), Global(bbufs, m, n, px, py), px * m, py * n, k, f);
      abufs', bbufs' := TimeStep(abufs', bbufs', m, n, px, py, f);
      k := k + 1;
    }
  }
}
