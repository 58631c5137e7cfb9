// The distributed initialisers of the benchmarks: each rank fills its block
// with `np.fromfunction` over the global indices `l2g(i, pi, lM)`,
// `l2g(j, pj, lN)`, and the stencil benchmarks place that block inside a
// zero-filled array with one ghost layer. The value formulas are floating
// point and enter here as the parameter `f` of the global indices.
module Init {
  import opened Seqs
  import opened ProcessGrid
  import opened Gather
  import Halo1D
  import Halo2D

  /** `np.fromfunction(f, shape=(n,))`. */
  function FromFunction1<V>(f: int -> V, n: nat): (v: seq<V>)
    ensures |v| == n && forall i :: 0 <= i < n ==> v[i] == f(i)
  {
    seq(n, i => f(i))
  }

  /** `np.fromfunction(f, shape=(rows, cols))`. */
  function FromFunction2<V>(f: (int, int) -> V, rows: nat, cols: nat): (g: seq<seq<V>>)
    ensures IsMatrix(g, rows, cols)
    ensures forall i, j :: 0 <= i < rows && 0 <= j < cols ==> g[i][j] == f(i, j)
  {
    seq(rows, i => seq(cols, j => f(i, j)))
  }

  /** Rank p's part of a block-distributed vector: `np.fromfunction(lambda i:
      f(l2g(i, p, lN)), shape=(lN,))`. */
  function LocalVector<V>(f: int -> V, ln: nat, p: nat): seq<V>
  {
    FromFunction1(i => f(L2G(i, p, ln)), ln)
  }

  /** The block of process (pi, pj): `np.fromfunction(lambda i, j:
      f(l2g(i, pi, lM), l2g(j, pj, lN)), shape=(lM, lN))`. */
  function LocalBlock<V>(f: (int, int) -> V, lm: nat, ln: nat, pi: nat, pj: nat): seq<seq<V>>
  {
    FromFunction2((i, j) => f(L2G(i, pi, lm), L2G(j, pj, ln)), lm, ln)
  }

  /** `A = np.zeros((lN+2,)); A[1:-1] = v`. */
  function Padded1D<V>(v: seq<V>, zero: V): (a: seq<V>)
    ensures |a| == |v| + 2 && a[0] == zero && a[|v| + 1] == zero
    ensures forall i :: 0 <= i < |v| ==> a[i + 1] == v[i]
  {
    [zero] + v + [zero]
  }

  /** `A = np.zeros((lM+2, lN+2)); A[1:-1, 1:-1] = block`. */
  function Padded2D<V>(block: seq<seq<V>>, m: nat, n: nat, zero: V): (a: seq<seq<V>>)
    requires IsMatrix(block, m, n)
    ensures Halo2D.BlockShaped(a, m, n)
    ensures forall i, j :: 0 <= i < m + 2 && 0 <= j < n + 2 ==>
              a[i][j] == if 1 <= i <= m && 1 <= j <= n then block[i - 1][j - 1] else zero
  {
    seq(m + 2, i requires 0 <= i < m + 2 =>
      seq(n + 2, j requires 0 <= j < n + 2 =>
        if 1 <= i <= m && 1 <= j <= n then block[i - 1][j - 1] else zero))
  }

  /** `lA[1:-1, 1:-1]`: the interior of a padded block. */
  function Interior2D<V>(a: seq<seq<V>>, m: nat, n: nat): (block: seq<seq<V>>)
    requires Halo2D.BlockShaped(a, m, n)
    ensures IsMatrix(block, m, n)
    ensures forall i, j :: 0 <= i < m && 0 <= j < n ==> block[i][j] == a[i + 1][j + 1]
  {
    seq(m, i requires 0 <= i < m => a[i + 1][1..n + 1])
  }

  /** Taking the interior of a padded block gives the block back. */
  lemma InteriorOfPadded<V>(block: seq<seq<V>>, m: nat, n: nat, zero: V)
    requires IsMatrix(block, m, n)
    ensures Interior2D(Padded2D(block, m, n, zero), m, n) == block
  {
    var back := Interior2D(Padded2D(block, m, n, zero), m, n);
    forall i | 0 <= i < m
      ensures back[i] == block[i]
    {
      assert |back[i]| == |block[i]|;
    }
  }

  /** `jacobi_1d_distr_init` for rank p: zeros with the interior set from
      the global formula. */
  function Jacobi1DInit<V>(f: int -> V, zero: V, ln: nat, p: nat): (a: seq<V>)
    ensures |a| == ln + 2 && a[0] == zero && a[ln + 1] == zero
    ensures forall i :: 0 <= i < ln ==> a[i + 1] == f(L2G(i, p, ln))
  {
    var v := LocalVector(f, ln, p);
    assert forall i :: 0 <= i < ln ==> v[i] == f(L2G(i, p, ln));
    Padded1D(v, zero)
  }

  /** `jacobi_2d_distr_init` for process (pi, pj). */
  function Jacobi2DInit<V>(f: (int, int) -> V, zero: V, lm: nat, ln: nat, pi: nat, pj: nat): (a: seq<seq<V>>)
    ensures Halo2D.BlockShaped(a, lm, ln)
    ensures forall i, j :: 0 <= i < lm + 2 && 0 <= j < ln + 2 ==>
              a[i][j] == if 1 <= i <= lm && 1 <= j <= ln then f(L2G(i - 1, pi, lm), L2G(j - 1, pj, ln)) else zero
  {
    Padded2D(LocalBlock(f, lm, ln, pi, pj), lm, ln, zero)
  }

  /** The k-line of global cell (g, h): `f(g, h, k)` for k in [0, nz). */
  function KLine<V>(f: (int, int, int) -> V, nz: nat, g: int, h: int): seq<V>
  {
    FromFunction1(k => f(g, h, k), nz)
  }

  /** `heat_3d_distr_init` for process (pi, pj): a padded block of k-lines,
      with zero lines in the ghost cells. */
  function Heat3DInit<V>(f: (int, int, int) -> V, zero: V, lm: nat, ln: nat, nz: nat, pi: nat, pj: nat): (a: seq<seq<seq<V>>>)
    ensures Halo2D.BlockShaped(a, lm, ln)
  {
    Jacobi2DInit((g, h) => KLine(f, nz, g, h), FromFunction1(_ => zero, nz), lm, ln, pi, pj)
  }

  /** The vector parts of ranks 0 .. size - 1. */
  function VectorParts<V>(f: int -> V, ln: nat, size: nat): (parts: seq<seq<V>>)
    ensures |parts| == size && Uniform(parts, ln)
    ensures forall p :: 0 <= p < size ==> parts[p] == LocalVector(f, ln, p)
  {
    seq(size, p requires 0 <= p < size => LocalVector(f, ln, p))
  }

  /** The vector parts of all ranks, concatenated in rank order as the
      point-to-point gathers and `comm.Gather` lay them out, are the global
      `np.fromfunction(f, shape=(P * lN,))`. */
  lemma {:induction false} VectorsConcatenate<V>(f: int -> V, ln: nat, size: nat)
    ensures Flatten(VectorParts(f, ln, size)) == FromFunction1(f, size * ln)
  {
    var parts := VectorParts(f, ln, size);
    if size == 0 {
      assert parts == [];
    } else {
      var prev, last := VectorParts(f, ln, size - 1), LocalVector(f, ln, size - 1);
      VectorsConcatenate(f, ln, size - 1);
      assert parts == prev + [last];
      FlattenSnoc(prev, last);
      VectorExtends(f, ln, size - 1);
    }
  }

  /** The global vector of p + 1 parts is that of p parts followed by the
      part of rank p. */
  lemma VectorExtends<V>(f: int -> V, ln: nat, p: nat)
    ensures FromFunction1(f, p * ln) + LocalVector(f, ln, p) == FromFunction1(f, (p + 1) * ln)
  {
    var a, last := FromFunction1(f, p * ln), LocalVector(f, ln, p);
    assert (p + 1) * ln == p * ln + ln;
    var want := FromFunction1(f, (p + 1) * ln);
    forall k | 0 <= k < (p + 1) * ln
      ensures (a + last)[k] == want[k]
    {
      if k >= |a| {
        assert last[k - |a|] == f(L2G(k - |a|, p, ln));
      }
    }
    assert a + last == want;
  }

  /** The jacobi_1d reference check is consistent at the start: gathering
      the initialised interiors of all ranks gives the global initial vector. */
  lemma Jacobi1DInitGathers<V>(f: int -> V, zero: V, ln: nat, size: nat)
    ensures var bufs := seq(size, p requires 0 <= p < size => Jacobi1DInit(f, zero, ln, p));
            Halo1D.Shaped(bufs, ln) && Halo1D.Gathered(bufs, ln) == FromFunction1(f, size * ln)
  {
    var bufs := seq(size, p requires 0 <= p < size => Jacobi1DInit(f, zero, ln, p));
    var parts := VectorParts(f, ln, size);
    assert Halo1D.Shaped(bufs, ln);
    forall p | 0 <= p < size
      ensures Halo1D.Interiors(bufs, ln)[p] == parts[p]
    {
      assert |Halo1D.Interiors(bufs, ln)[p]| == ln;
    }
    assert Halo1D.Interiors(bufs, ln) == parts;
    VectorsConcatenate(f, ln, size);
  }

  /** The blocks of all ranks, in rank order. */
  function AllBlocks<V>(f: (int, int) -> V, px: nat, py: nat, lm: nat, ln: nat): (blocks: seq<seq<seq<V>>>)
    requires py > 0
    ensures |blocks| == px * py && Blocks(blocks, lm, ln)
  {
    seq(px * py, r requires 0 <= r < px * py => LocalBlock(f, lm, ln, Coord(r, py).0, Coord(r, py).1))
  }

  /** Blocks initialised from the global formula reassemble, through
      Gather, transpose(0, 2, 1, 3) and reshape(Px * lM, Py * lN), to the
      global `np.fromfunction(f, shape=(Px * lM, Py * lN))`: the
      distributed initialisers agree with the shared-memory ones. */
  lemma {:induction false} BlocksReassemble<V>(f: (int, int) -> V, px: nat, py: nat, lm: nat, ln: nat)
    requires py > 0
    ensures Reassemble(AllBlocks(f, px, py, lm, ln), px, py, lm, ln, px * lm, py * ln)
            == Some(FromFunction2(f, px * lm, py * ln))
  {
    var blocks := AllBlocks(f, px, py, lm, ln);
    var rows, cols := px * lm, py * ln;
    ReassembleDefined(blocks, px, py, lm, ln, rows, cols);
    assert rows * cols == px * (lm * (py * ln)) by {
      MulRegroup(px, lm, py * ln);
    }
    var got := Reassemble(blocks, px, py, lm, ln, rows, cols).value;
    var want := FromFunction2(f, rows, cols);
    forall g, h | 0 <= g < rows && 0 <= h < cols
      ensures got[g][h] == want[g][h]
    {
      CellReassembles(f, px, py, lm, ln, g, h);
    }
    forall g | 0 <= g < rows
      ensures got[g] == want[g]
    {
      assert IsMatrix(got, rows, cols) && IsMatrix(want, rows, cols);
    }
    assert got == want;
  }

  /** One cell of BlocksReassemble: global (g, h) is cell (g % lM, h % lN)
      of the block of process (g // lM, h // lN). */
  lemma CellReassembles<V>(f: (int, int) -> V, px: nat, py: nat, lm: nat, ln: nat, g: nat, h: nat)
    requires py > 0 && g < px * lm && h < py * ln
    ensures Reassemble(AllBlocks(f, px, py, lm, ln), px, py, lm, ln, px * lm, py * ln).Some?
    ensures IsMatrix(Reassemble(AllBlocks(f, px, py, lm, ln), px, py, lm, ln, px * lm, py * ln).value, px * lm, py * ln)
    ensures Reassemble(AllBlocks(f, px, py, lm, ln), px, py, lm, ln, px * lm, py * ln).value[g][h] == f(g, h)
  {
    var blocks := AllBlocks(f, px, py, lm, ln);
    L2GOnto(g, lm, px);
    L2GOnto(h, ln, py);
    var pi, li, pj, lj := g / lm, g % lm, h / ln, h % ln;
    ReassembleAt(blocks, px, py, lm, ln, pi, li, pj, lj);
    RankOfInGrid(pi, pj, px, py);
    assert blocks[RankOf(pi, pj, py)] == LocalBlock(f, lm, ln, pi, pj);
  }

  /** jacobi_2d's interiors `lA[1:-1, 1:-1]` at the start are the blocks of
      the global formula, so they reassemble to the global initial array. */
  lemma Jacobi2DInitReassembles<V>(f: (int, int) -> V, zero: V, px: nat, py: nat, lm: nat, ln: nat)
    requires py > 0
    ensures var interiors := seq(px * py, r requires 0 <= r < px * py =>
                               Interior2D(Jacobi2DInit(f, zero, lm, ln, Coord(r, py).0, Coord(r, py).1), lm, ln));
            interiors == AllBlocks(f, px, py, lm, ln) &&
            Reassemble(interiors, px, py, lm, ln, px * lm, py * ln) == Some(FromFunction2(f, px * lm, py * ln))
  {
    var interiors := seq(px * py, r requires 0 <= r < px * py =>
                       Interior2D(Jacobi2DInit(f, zero, lm, ln, Coord(r, py).0, Coord(r, py).1), lm, ln));
    var blocks := AllBlocks(f, px, py, lm, ln);
    forall r | 0 <= r < px * py
      ensures interiors[r] == blocks[r]
    {
      var c := Coord(r, py);
      InteriorOfPadded(LocalBlock(f, lm, ln, c.0, c.1), lm, ln, zero);
    }
    BlocksReassemble(f, px, py, lm, ln);
  }

  /** heat_3d's reference arrays come from `heat_3d_distr_init(N, N, N, ...,
      0, 0)`: on the single block of a 1 x 1 grid l2g is the identity, so the
      interior holds the global k-lines `f(i, j, k)`. */
  lemma HeatReferenceInit<V>(f: (int, int, int) -> V, zero: V, n: nat)
    ensures Interior2D(Heat3DInit(f, zero, n, n, n, 0, 0), n, n) == FromFunction2((i, j) => KLine(f, n, i, j), n, n)
  {
    var got := Interior2D(Heat3DInit(f, zero, n, n, n, 0, 0), n, n);
    var want := FromFunction2((i, j) => KLine(f, n, i, j), n, n);
    forall i | 0 <= i < n
      ensures got[i] == want[i]
    {
      forall j | 0 <= j < n
        ensures got[i][j] == want[i][j]
      {
        assert L2G(i, 0, n) == i && L2G(j, 0, n) == j;
      }
    }
  }

  /** heat_3d's distributed k-line blocks reassemble, through the 5-D
      transpose(0, 2, 1, 3, 4) and reshape(N, N, N), to the global array. */
  lemma HeatInitReassembles<V>(f: (int, int, int) -> V, zero: V, px: nat, py: nat, lm: nat, ln: nat, nz: nat)
    requires py > 0
    ensures var interiors := seq(px * py, r requires 0 <= r < px * py =>
                               Interior2D(Heat3DInit(f, zero, lm, ln, nz, Coord(r, py).0, Coord(r, py).1), lm, ln));
            Reassemble(interiors, px, py, lm, ln, px * lm, py * ln)
            == Some(FromFunction2((i, j) => KLine(f, nz, i, j), px * lm, py * ln))
  {
    var line := (g, h) => KLine(f, nz, g, h);
    var zeros := FromFunction1(_ => zero, nz);
    var heat := seq(px * py, r requires 0 <= r < px * py =>
                  Interior2D(Heat3DInit(f, zero, lm, ln, nz, Coord(r, py).0, Coord(r, py).1), lm, ln));
    var jac := seq(px * py, r requires 0 <= r < px * py =>
                 Interior2D(Jacobi2DInit(line, zeros, lm, ln, Coord(r, py).0, Coord(r, py).1), lm, ln));
    forall r | 0 <= r < px * py
      ensures heat[r] == jac[r]
    {
      var c := Coord(r, py);
      assert Heat3DInit(f, zero, lm, ln, nz, c.0, c.1) == Jacobi2DInit(line, zeros, lm, ln, c.0, c.1);
    }
    assert heat == jac;
    Jacobi2DInitReassembles(line, zeros, px, py, lm, ln);
  }
}
