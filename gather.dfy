// The validation gathers of the distributed benchmarks, which collect the
// distributed result on rank 0 for comparison with the shared-memory one.
//
// Two mechanisms:
//   * gemm, jacobi_2d and heat_3d: a rank-ordered `comm.Gather` of every
//     rank's lM x lN block into a (Px, Py, lM, lN) staging array, then
//     `np.transpose(C, (0, 2, 1, 3)).reshape(M, N)` (heat_3d: the 5-D
//     analogue, here a 4-D staging array whose cells are k-lines);
//   * atax, bicg and doitgen: rank 0 copies its own segment, then receives
//     segment i from rank i with `comm.Recv(buf, source=i, tag=...)` and
//     stores it at offset i * segment length.
module Gather {
  import opened Seqs
  import opened ProcessGrid
  import opened Topology
  import opened Messages

  /** `rows` rows of `cols` cells each. */
  predicate IsMatrix<T>(x: seq<seq<T>>, rows: int, cols: int)
  {
    |x| == rows && forall i :: 0 <= i < rows ==> |x[i]| == cols
  }

  /** A four-dimensional array of shape (d0, d1, d2, d3). */
  predicate Shape4<T>(x: seq<seq<seq<seq<T>>>>, d0: nat, d1: nat, d2: nat, d3: nat)
  {
    |x| == d0 &&
    forall a :: 0 <= a < d0 ==> |x[a]| == d1 && forall b :: 0 <= b < d1 ==> IsMatrix(x[a][b], d2, d3)
  }

  /** Every rank's block is lM x lN. */
  predicate Blocks<T>(blocks: seq<seq<seq<T>>>, lm: nat, ln: nat)
  {
    forall r :: 0 <= r < |blocks| ==> IsMatrix(blocks[r], lm, ln)
  }

  /** The block of the rank at grid coordinate (a, b). */
  function BlockAt<T>(blocks: seq<seq<seq<T>>>, px: nat, py: nat, lm: nat, ln: nat, a: nat, b: nat): (blk: seq<seq<T>>)
    requires |blocks| == px * py && Blocks(blocks, lm, ln) && a < px && b < py
    ensures RankOf(a, b, py) < |blocks| && blk == blocks[RankOf(a, b, py)]
    ensures IsMatrix(blk, lm, ln)
  {
    RankOfInGrid(a, b, px, py);
    blocks[RankOf(a, b, py)]
  }

  /** `comm.Gather(lC, C)` into `np.empty((Px, Py, lM, lN))`: the blocks
      arrive in rank order, so the staging array holds at [a][b] the block of
      rank a * Py + b. */
  function Staging<T>(blocks: seq<seq<seq<T>>>, px: nat, py: nat, lm: nat, ln: nat): (s: seq<seq<seq<seq<T>>>>)
    requires |blocks| == px * py && Blocks(blocks, lm, ln)
    ensures Shape4(s, px, py, lm, ln)
  {
    seq(px, a requires 0 <= a < px =>
      seq(py, b requires 0 <= b < py => BlockAt(blocks, px, py, lm, ln, a, b)))
  }

  /** Staging slot [rank // Py][rank % Py] holds that rank's block. */
  lemma StagingSlot<T>(blocks: seq<seq<seq<T>>>, px: nat, py: nat, lm: nat, ln: nat, rank: nat)
    requires |blocks| == px * py && Blocks(blocks, lm, ln) && py > 0 && rank < px * py
    ensures Coord(rank, py).0 < px && Coord(rank, py).1 < py
    ensures Staging(blocks, px, py, lm, ln)[Coord(rank, py).0][Coord(rank, py).1] == blocks[rank]
  {
    CoordInGrid(rank, px, py);
  }

  /** `np.transpose(C, (0, 2, 1, 3))`: axes (Px, Py, lM, lN) become (Px, lM, Py, lN). */
  function Transpose0213<T>(s: seq<seq<seq<seq<T>>>>, px: nat, py: nat, lm: nat, ln: nat): (t: seq<seq<seq<seq<T>>>>)
    requires Shape4(s, px, py, lm, ln)
    ensures Shape4(t, px, lm, py, ln)
    ensures forall a, i, b :: 0 <= a < px && 0 <= i < lm && 0 <= b < py ==> t[a][i][b] == s[a][b][i]
  {
    seq(px, a requires 0 <= a < px =>
      seq(lm, i requires 0 <= i < lm =>
        seq(py, b requires 0 <= b < py => s[a][b][i])))
  }

  /** The cells of a C-contiguous three-dimensional array in memory order. */
  function Flat3<T>(t3: seq<seq<seq<T>>>): seq<T>
  {
    Flatten(seq(|t3|, i requires 0 <= i < |t3| => Flatten(t3[i])))
  }

  /** A (d1, d2, d3) array holds d1 * (d2 * d3) cells. */
  lemma Flat3Length<T>(t3: seq<seq<seq<T>>>, d1: nat, d2: nat, d3: nat)
    requires |t3| == d1 && forall i :: 0 <= i < d1 ==> IsMatrix(t3[i], d2, d3)
    ensures |Flat3(t3)| == d1 * (d2 * d3)
  {
    var ss := seq(|t3|, i requires 0 <= i < |t3| => Flatten(t3[i]));
    forall i | 0 <= i < d1
      ensures |ss[i]| == d2 * d3
    {
      assert IsMatrix(t3[i], d2, d3);
      FlattenLength(t3[i], d3);
    }
    FlattenLength(ss, d2 * d3);
  }

  /** Cell (i, b, j) of a (d1, d2, d3) array sits at offset i * (d2 * d3) + (b * d3 + j). */
  lemma Flat3At<T>(t3: seq<seq<seq<T>>>, d1: nat, d2: nat, d3: nat, i: nat, b: nat, j: nat)
    requires |t3| == d1 && forall i' :: 0 <= i' < d1 ==> IsMatrix(t3[i'], d2, d3)
    requires i < d1 && b < d2 && j < d3
    ensures |Flat3(t3)| == d1 * (d2 * d3)
    ensures i * (d2 * d3) + (b * d3 + j) < d1 * (d2 * d3)
    ensures |t3[i]| == d2 && |t3[i][b]| == d3
    ensures Flat3(t3)[i * (d2 * d3) + (b * d3 + j)] == t3[i][b][j]
  {
    Flat3Length(t3, d1, d2, d3);
    var ss := seq(|t3|, i' requires 0 <= i' < |t3| => Flatten(t3[i']));
    forall i' | 0 <= i' < d1
      ensures |ss[i']| == d2 * d3
    {
      assert IsMatrix(t3[i'], d2, d3);
      FlattenLength(t3[i'], d3);
    }
    assert IsMatrix(t3[i], d2, d3);
    FlattenAt(t3[i], d3, b, j);
    FlattenAt(ss, d2 * d3, i, b * d3 + j);
  }

  /** The cells of a C-contiguous four-dimensional array in memory order. */
  function Flat4<T>(t: seq<seq<seq<seq<T>>>>): seq<T>
  {
    Flatten(seq(|t|, a requires 0 <= a < |t| => Flat3(t[a])))
  }

  /** A (d0, d1, d2, d3) array holds d0 * (d1 * (d2 * d3)) cells. */
  lemma Flat4Length<T>(t: seq<seq<seq<seq<T>>>>, d0: nat, d1: nat, d2: nat, d3: nat)
    requires Shape4(t, d0, d1, d2, d3)
    ensures |Flat4(t)| == d0 * (d1 * (d2 * d3))
  {
    var ss := seq(|t|, a requires 0 <= a < |t| => Flat3(t[a]));
    forall a | 0 <= a < d0
      ensures |ss[a]| == d1 * (d2 * d3)
    {
      Flat3Length(t[a], d1, d2, d3);
    }
    FlattenLength(ss, d1 * (d2 * d3));
  }

  /** Cell (a, i, b, j) of a (d0, d1, d2, d3) array. */
  function Cell4<T>(t: seq<seq<seq<seq<T>>>>, d0: nat, d1: nat, d2: nat, d3: nat, a: nat, i: nat, b: nat, j: nat): T
    requires Shape4(t, d0, d1, d2, d3) && a < d0 && i < d1 && b < d2 && j < d3
  {
    assert IsMatrix(t[a][i], d2, d3);
    t[a][i][b][j]
  }

  /** The C-order memory offset of index (a, i, b, j) in a (_, d1, d2, d3) array. */
  function Offset4(a: nat, i: nat, b: nat, j: nat, d1: nat, d2: nat, d3: nat): nat
  {
    ((a * d1 + i) * d2 + b) * d3 + j
  }

  /** Cell (a, i, b, j) of a (d0, d1, d2, d3) array sits at offset
      ((a * d1 + i) * d2 + b) * d3 + j in memory order. */
  lemma Flat4At<T>(t: seq<seq<seq<seq<T>>>>, d0: nat, d1: nat, d2: nat, d3: nat, a: nat, i: nat, b: nat, j: nat)
    requires Shape4(t, d0, d1, d2, d3) && a < d0 && i < d1 && b < d2 && j < d3
    ensures |Flat4(t)| == d0 * (d1 * (d2 * d3))
    ensures Offset4(a, i, b, j, d1, d2, d3) < d0 * (d1 * (d2 * d3))
    ensures Flat4(t)[Offset4(a, i, b, j, d1, d2, d3)] == Cell4(t, d0, d1, d2, d3, a, i, b, j)
  {
    Flat4Length(t, d0, d1, d2, d3);
    var ss := seq(|t|, a' requires 0 <= a' < |t| => Flat3(t[a']));
    forall a' | 0 <= a' < d0
      ensures |ss[a']| == d1 * (d2 * d3)
    {
      Flat3Length(t[a'], d1, d2, d3);
    }
    Flat3At(t[a], d1, d2, d3, i, b, j);
    FlattenAt(ss, d1 * (d2 * d3), a, i * (d2 * d3) + (b * d3 + j));
    OffsetIdentity(a, i, b, j, d1, d2, d3);
  }

  /** The memory offset of a four-dimensional index, regrouped. */
  lemma OffsetIdentity(a: nat, i: nat, b: nat, j: nat, d1: nat, d2: nat, d3: nat)
    ensures ((a * d1 + i) * d2 + b) * d3 + j == a * (d1 * (d2 * d3)) + (i * (d2 * d3) + (b * d3 + j))
  {
    calc {
      ((a * d1 + i) * d2 + b) * d3 + j;
      (a * d1 + i) * d2 * d3 + b * d3 + j;
      { assert (a * d1 + i) * d2 == a * d1 * d2 + i * d2; }
      (a * d1 * d2 + i * d2) * d3 + b * d3 + j;
      a * d1 * d2 * d3 + i * d2 * d3 + b * d3 + j;
      a * (d1 * (d2 * d3)) + (i * (d2 * d3) + (b * d3 + j));
    }
  }

  /** Row i of a (rows, cols) reshape occupies [i * cols, i * cols + cols). */
  lemma ChunkBounds(i: nat, rows: nat, cols: nat)
    requires i < rows
    ensures i * cols + cols <= rows * cols
  {
    MulMonotone(i + 1, rows, cols);
  }

  /** Row i of a (rows, cols) reshape: cells [i * cols, i * cols + cols) of `flat`. */
  function Chunk<T>(flat: seq<T>, rows: nat, cols: nat, i: nat): (c: seq<T>)
    requires rows * cols == |flat| && i < rows
    ensures |c| == cols
    ensures forall k :: 0 <= k < cols ==> i * cols + k < |flat| && c[k] == flat[i * cols + k]
  {
    ChunkBounds(i, rows, cols);
    flat[i * cols..i * cols + cols]
  }

  /** `.reshape(rows, cols)` of a flat sequence in C order; NumPy raises
      ValueError (None here) when the sizes do not match. */
  function Reshape2<T>(flat: seq<T>, rows: nat, cols: nat): (r: Option<seq<seq<T>>>)
    ensures r.Some? <==> rows * cols == |flat|
    ensures r.Some? ==> IsMatrix(r.value, rows, cols)
  {
    if rows * cols != |flat| then None
    else Some(seq(rows, i requires 0 <= i < rows => Chunk(flat, rows, cols, i)))
  }

  /** Row r, column c of the reshape is flat cell r * cols + c. */
  lemma Reshape2At<T>(flat: seq<T>, rows: nat, cols: nat, r: nat, c: nat)
    requires rows * cols == |flat| && r < rows && c < cols
    ensures r * cols + c < |flat|
    ensures Reshape2(flat, rows, cols).value[r][c] == flat[r * cols + c]
  {
    ChunkBounds(r, rows, cols);
    var ch := Chunk(flat, rows, cols, r);
    assert ch[c] == flat[r * cols + c];
    assert Reshape2(flat, rows, cols).value[r] == ch;
  }

  /** Rank 0's reassembly: Gather, transpose(0, 2, 1, 3), reshape(rows, cols). */
  function Reassemble<T>(blocks: seq<seq<seq<T>>>, px: nat, py: nat, lm: nat, ln: nat, rows: nat, cols: nat): Option<seq<seq<T>>>
    requires |blocks| == px * py && Blocks(blocks, lm, ln)
  {
    Reshape2(Flat4(Transpose0213(Staging(blocks, px, py, lm, ln), px, py, lm, ln)), rows, cols)
  }

  /** The staged array holds px * lm * py * ln cells. */
  lemma StagedLength<T>(blocks: seq<seq<seq<T>>>, px: nat, py: nat, lm: nat, ln: nat)
    requires |blocks| == px * py && Blocks(blocks, lm, ln)
    ensures |Flat4(Transpose0213(Staging(blocks, px, py, lm, ln), px, py, lm, ln))| == px * (lm * (py * ln))
  {
    Flat4Length(Transpose0213(Staging(blocks, px, py, lm, ln), px, py, lm, ln), px, lm, py, ln);
  }

  /** The reshape succeeds exactly when the requested shape has as many
      cells as the staged blocks. */
  lemma ReassembleDefined<T>(blocks: seq<seq<seq<T>>>, px: nat, py: nat, lm: nat, ln: nat, rows: nat, cols: nat)
    requires |blocks| == px * py && Blocks(blocks, lm, ln)
    ensures Reassemble(blocks, px, py, lm, ln, rows, cols).Some? <==> rows * cols == px * (lm * (py * ln))
  {
    StagedLength(blocks, px, py, lm, ln);
  }

  /** transpose(0, 2, 1, 3).reshape(Px * lM, Py * lN) places block(pi, pj)[li][lj]
      at global (l2g(li, pi, lM), l2g(lj, pj, lN)). */
  lemma ReassembleAt<T>(blocks: seq<seq<seq<T>>>, px: nat, py: nat, lm: nat, ln: nat, pi: nat, li: nat, pj: nat, lj: nat)
    requires |blocks| == px * py && Blocks(blocks, lm, ln)
    requires pi < px && li < lm && pj < py && lj < ln
    ensures Reassemble(blocks, px, py, lm, ln, px * lm, py * ln).Some?
    ensures RankOf(pi, pj, py) < |blocks|
    ensures L2G(li, pi, lm) < px * lm && L2G(lj, pj, ln) < py * ln
    ensures Reassemble(blocks, px, py, lm, ln, px * lm, py * ln).value[L2G(li, pi, lm)][L2G(lj, pj, ln)]
            == blocks[RankOf(pi, pj, py)][li][lj]
  {
    var s := Staging(blocks, px, py, lm, ln);
    var t := Transpose0213(s, px, py, lm, ln);
    RankOfInGrid(pi, pj, px, py);
    L2GRoundTrip(li, pi, lm, px);
    L2GRoundTrip(lj, pj, ln, py);
    Flat4At(t, px, lm, py, ln, pi, li, pj, lj);
    assert Cell4(t, px, lm, py, ln, pi, li, pj, lj) == s[pi][pj][li][lj];
    MulRegroup(px, lm, py * ln);
    var row, col := L2G(li, pi, lm), L2G(lj, pj, ln);
    Reshape2At(Flat4(t), px * lm, py * ln, row, col);
    GlobalOffset(pi, li, pj, lj, lm, py, ln);
  }

  lemma MulRegroup(a: nat, b: nat, c: nat)
    ensures (a * b) * c == a * (b * c)
  {
  }

  /** The row-major offset of global cell (l2g(li, pi, lM), l2g(lj, pj, lN))
      in a (Px * lM, Py * lN) matrix is the memory offset of (pi, li, pj, lj). */
  lemma GlobalOffset(pi: nat, li: nat, pj: nat, lj: nat, lm: nat, py: nat, ln: nat)
    ensures L2G(li, pi, lm) * (py * ln) + L2G(lj, pj, ln) == ((pi * lm + li) * py + pj) * ln + lj
  {
    calc {
      L2G(li, pi, lm) * (py * ln) + L2G(lj, pj, ln);
      (li + pi * lm) * (py * ln) + (lj + pj * ln);
      li * (py * ln) + (pi * lm) * (py * ln) + pj * ln + lj;
      { MulRegroup(pi * lm, py, ln); MulRegroup(li, py, ln); }
      (li * py) * ln + ((pi * lm) * py) * ln + pj * ln + lj;
      (li * py + (pi * lm) * py + pj) * ln + lj;
      ((pi * lm + li) * py + pj) * ln + lj;
    }
  }

  /** a <= A and b <= B with A, B > 0 have the product A * B only when both are equal. */
  lemma ProductExact(a: nat, b: nat, A: nat, B: nat)
    requires a <= A && b <= B && A > 0 && B > 0
    ensures a * b == A * B <==> a == A && b == B
  {
    if a < A {
      MulMonotone(b, B, a);
      MulMonotone(a + 1, A, B);
    } else if b < B {
      MulMonotone(b + 1, B, A);
    }
  }

  /** With the block sizes of the drivers (lM = M // Px, lN = N // Py), the
      final reshape(M, N) succeeds exactly when Px divides M and Py divides N. */
  lemma ReassembleNeedsExactBlocks<T>(blocks: seq<seq<seq<T>>>, px: nat, py: nat, m: nat, n: nat)
    requires px > 0 && py > 0 && m > 0 && n > 0
    requires |blocks| == px * py && Blocks(blocks, BlockSize(m, px), BlockSize(n, py))
    ensures Reassemble(blocks, px, py, BlockSize(m, px), BlockSize(n, py), m, n).Some?
            <==> m % px == 0 && n % py == 0
  {
    var lm, ln := BlockSize(m, px), BlockSize(n, py);
    ReassembleDefined(blocks, px, py, lm, ln, m, n);
    var a, b := lm * px, ln * py;
    assert a <= m && b <= n && (m % px == 0 <==> a == m) && (n % py == 0 <==> b == n);
    Regroup4(px, lm, py, ln);
    ProductExact(a, b, m, n);
  }

  /** px * (lm * (py * ln)) == (lm * px) * (ln * py). */
  lemma Regroup4(px: nat, lm: nat, py: nat, ln: nat)
    ensures px * (lm * (py * ln)) == (lm * px) * (ln * py)
  {
    calc {
      px * (lm * (py * ln));
      { MulRegroup(px, lm, py * ln); }
      (px * lm) * (py * ln);
      { assert px * lm == lm * px && py * ln == ln * py; }
      (lm * px) * (ln * py);
    }
  }

  /** The sends a rank posts for a one-vector validation gather:
      `comm.Send(ly, dest=0, tag=t)`. */
  function VectorSends<T>(tag: nat, part: seq<T>): seq<Send<seq<T>>>
  {
    [Send(Rank(0), tag, part)]
  }

  /** The sends of bicg's validation: `comm.Send(lo1, dest=0, tag=pj)` then
      `comm.Send(lo2, dest=0, tag=pj+Py)`. */
  function BicgSends<T>(pj: nat, py: nat, lo1: seq<T>, lo2: seq<T>): seq<Send<seq<T>>>
  {
    [Send(Rank(0), pj, lo1), Send(Rank(0), pj + py, lo2)]
  }

  /** A vector send delivers its payload to exactly the receive with its tag. */
  lemma VectorDelivers<T>(tag: nat, part: seq<T>)
    ensures Delivered(VectorSends(tag, part), 0, tag) == Some(part)
    ensures forall t :: t != tag ==> Delivered(VectorSends(tag, part), 0, t).None?
  {
  }

  /** The tags pj and pj + Py used for the two vectors of bicg are distinct,
      so each of the two receives from a rank gets the vector it names. */
  lemma BicgDelivers<T>(pj: nat, py: nat, lo1: seq<T>, lo2: seq<T>)
    requires pj < py
    ensures Delivered(BicgSends(pj, py, lo1, lo2), 0, pj) == Some(lo1)
    ensures Delivered(BicgSends(pj, py, lo1, lo2), 0, pj + py) == Some(lo2)
    ensures forall t :: t != pj && t != pj + py ==> Delivered(BicgSends(pj, py, lo1, lo2), 0, t).None?
  {
    var sends := BicgSends(pj, py, lo1, lo2);
    assert sends[1..] == [Send(Rank(0), pj + py, lo2)];
    assert sends[1..][1..] == [];
    forall t | t != pj && t != pj + py
      ensures Delivered(sends, 0, t).None?
    {
      assert Delivered(sends, 0, t) == Delivered(sends[1..], 0, t);
      assert Delivered(sends[1..], 0, t) == Delivered(sends[1..][1..], 0, t);
    }
  }

  /** The ranks on the first grid row are 0 .. Py - 1: process (0, i) is rank i. */
  lemma FirstRowRanks(i: nat, py: nat)
    requires i < py
    ensures RankOf(0, i, py) == i && Coord(i, py) == (0, i)
  {
    DivModUnique(i, py, 0, i);
  }

  /** `y[at:at+len(buf)] = buf`. */
  method PlaceSegment<T>(y: array<T>, at: nat, buf: seq<T>)
    requires at + |buf| <= y.Length
    modifies y
    ensures y[..] == old(y[..at]) + buf + old(y[at + |buf|..])
  {
    forall k | 0 <= k < |buf| {
      y[at + k] := buf[k];
    }
    assert y[..] == old(y[..at]) + buf + old(y[at + |buf|..]);
  }

  /** The cells of `np.empty` that nothing has written yet. */
  function Pad<T>(n: int, empty: T): (p: seq<T>)
    ensures |p| == if n < 0 then 0 else n
    ensures forall k :: 0 <= k < |p| ==> p[k] == empty
  {
    if n <= 0 then [] else seq(n, _ => empty)
  }

  /** Writing segment i on top of segments 0 .. i - 1 extends the written prefix by it. */
  lemma PlaceStep<T>(parts: seq<seq<T>>, seg: nat, total: nat, empty: T, i: nat, before: seq<T>, after: seq<T>)
    requires Uniform(parts, seg) && i < |parts| && |parts| * seg <= total
    requires before == Flatten(parts[..i]) + Pad(total - i * seg, empty)
    requires i * seg + seg <= |before|
    requires after == before[..i * seg] + parts[i] + before[i * seg + seg..]
    ensures after == Flatten(parts[..i + 1]) + Pad(total - (i * seg + seg), empty)
  {
    var fl, pad := Flatten(parts[..i]), Pad(total - i * seg, empty);
    assert Uniform(parts[..i], seg);
    FlattenLength(parts[..i], seg);
    assert before[..i * seg] == fl;
    assert before[i * seg + seg..] == pad[seg..];
    PadDrop(total - i * seg, seg, empty);
    assert parts[..i + 1] == parts[..i] + [parts[i]];
    FlattenSnoc(parts[..i], parts[i]);
  }

  /** Dropping k unwritten cells leaves the shorter run of unwritten cells. */
  lemma PadDrop<T>(n: int, k: nat, empty: T)
    requires k <= n
    ensures Pad(n, empty)[k..] == Pad(n - k, empty)
  {
    var p, q := Pad(n, empty)[k..], Pad(n - k, empty);
    assert |p| == |q|;
    assert forall i :: 0 <= i < |p| ==> p[i] == empty == q[i];
  }

  /** `y[i*seg:(i+1)*seg] = buf` with buf the segment of rank i, on top of
      the segments 0 .. i - 1 already in place. */
  method StoreSegment<T>(y: array<T>, parts: seq<seq<T>>, seg: nat, total: nat, empty: T, i: nat, buf: seq<T>)
    requires Uniform(parts, seg) && i < |parts| && |parts| * seg <= total && buf == parts[i]
    requires y.Length == total
    requires y[..] == Flatten(parts[..i]) + Pad(total - i * seg, empty)
    modifies y
    ensures y[..] == Flatten(parts[..i + 1]) + Pad(total - (i + 1) * seg, empty)
  {
    ChunkBounds(i, |parts|, seg);
    ghost var before := y[..];
    PlaceSegment(y, i * seg, buf);
    PlaceStep(parts, seg, total, empty, i, before, y[..]);
    assert i * seg + seg == (i + 1) * seg;
  }

  /** Rank 0's point-to-point gather of atax (`count` = Py) and doitgen
      (`count` = P): `y[0:seg] = own`, then for every other sender
      i = 1 .. count - 1 (rank 0 itself is skipped), `comm.Recv(buf,
      source=i, tag=i)` and `y[i*seg:(i+1)*seg] = buf`. `parts[i]` is what
      rank i sends, `parts[0]` rank 0's own segment; cells past
      count * seg keep the contents of `np.empty`, here `empty`. */
  method GatherSegments<T>(outbox: seq<seq<Send<seq<T>>>>, parts: seq<seq<T>>, seg: nat, total: nat, empty: T)
    returns (y: array<T>)
    requires 1 <= |parts| <= |outbox| && Uniform(parts, seg) && |parts| * seg <= total
    requires forall i :: 1 <= i < |parts| ==> Delivered(outbox[i], 0, i) == Some(parts[i])
    ensures fresh(y)
    ensures y[..] == Flatten(parts) + Pad(total - |parts| * seg, empty)
  {
    var count := |parts|;
    y := new T[total](_ => empty);
    assert parts[..0] == [];
    StoreSegment(y, parts, seg, total, empty, 0, parts[0]);
    for i := 1 to count
      invariant y[..] == Flatten(parts[..i]) + Pad(total - i * seg, empty)
    {
      var buf := BlockingRecv(outbox[i], 0, i);
      StoreSegment(y, parts, seg, total, empty, i, buf);
    }
    assert parts[..count] == parts;
  }

  /** Rank 0's gather in bicg: `o1[0:lN] = lo1`, `o2[0:lMy] = lo2`, then for
      every other first-row rank i, `comm.Recv(lo1, source=i, tag=i)` into
      `o1[i*lN:(i+1)*lN]` and `comm.Recv(lo2, source=i, tag=i+Py)` into
      `o2[i*lMy:(i+1)*lMy]`; `|p1|` = Py. */
  method GatherPairs<T>(outbox: seq<seq<Send<seq<T>>>>, p1: seq<seq<T>>, p2: seq<seq<T>>,
                        seg1: nat, seg2: nat, total1: nat, total2: nat, empty: T)
    returns (o1: array<T>, o2: array<T>)
    requires 1 <= |p1| == |p2| <= |outbox| && Uniform(p1, seg1) && Uniform(p2, seg2)
    requires |p1| * seg1 <= total1 && |p2| * seg2 <= total2
    requires forall i :: 1 <= i < |p1| ==> Delivered(outbox[i], 0, i) == Some(p1[i])
    requires forall i :: 1 <= i < |p1| ==> Delivered(outbox[i], 0, i + |p1|) == Some(p2[i])
    ensures fresh(o1) && fresh(o2) && o1 != o2
    ensures o1[..] == Flatten(p1) + Pad(total1 - |p1| * seg1, empty)
    ensures o2[..] == Flatten(p2) + Pad(total2 - |p2| * seg2, empty)
  {
    var py := |p1|;
    o1 := new T[total1](_ => empty);
    o2 := new T[total2](_ => empty);
    assert p1[..0] == [] && p2[..0] == [];
    StorePair(o1, o2, p1, p2, seg1, seg2, total1, total2, empty, 0, p1[0], p2[0]);
    for i := 1 to py
      invariant o1.Length == total1 && o2.Length == total2
      invariant o1[..] == Flatten(p1[..i]) + Pad(total1 - i * seg1, empty)
      invariant o2[..] == Flatten(p2[..i]) + Pad(total2 - i * seg2, empty)
    {
      ReceivePair(o1, o2, outbox[i], p1, p2, seg1, seg2, total1, total2, empty, i);
    }
    assert p1[..py] == p1 && p2[..py] == p2;
  }

  /** One iteration of bicg's gather loop: the two receives from rank i. */
  method ReceivePair<T>(o1: array<T>, o2: array<T>, sends: seq<Send<seq<T>>>, p1: seq<seq<T>>, p2: seq<seq<T>>,
                        seg1: nat, seg2: nat, total1: nat, total2: nat, empty: T, i: nat)
    requires o1 != o2 && o1.Length == total1 && o2.Length == total2
    requires i < |p1| == |p2| && Uniform(p1, seg1) && Uniform(p2, seg2)
    requires |p1| * seg1 <= total1 && |p2| * seg2 <= total2
    requires Delivered(sends, 0, i) == Some(p1[i]) && Delivered(sends, 0, i + |p1|) == Some(p2[i])
    requires o1[..] == Flatten(p1[..i]) + Pad(total1 - i * seg1, empty)
    requires o2[..] == Flatten(p2[..i]) + Pad(total2 - i * seg2, empty)
    modifies o1, o2
    ensures o1[..] == Flatten(p1[..i + 1]) + Pad(total1 - (i + 1) * seg1, empty)
    ensures o2[..] == Flatten(p2[..i + 1]) + Pad(total2 - (i + 1) * seg2, empty)
  {
    var lo1 := BlockingRecv(sends, 0, i);
    var lo2 := BlockingRecv(sends, 0, i + |p1|);
    StorePair(o1, o2, p1, p2, seg1, seg2, total1, total2, empty, i, lo1, lo2);
  }

  /** `o1[i*lN:(i+1)*lN] = lo1` and `o2[i*lMy:(i+1)*lMy] = lo2`. */
  method StorePair<T>(o1: array<T>, o2: array<T>, p1: seq<seq<T>>, p2: seq<seq<T>>,
                      seg1: nat, seg2: nat, total1: nat, total2: nat, empty: T, i: nat, lo1: seq<T>, lo2: seq<T>)
    requires o1 != o2 && o1.Length == total1 && o2.Length == total2
    requires i < |p1| == |p2| && Uniform(p1, seg1) && Uniform(p2, seg2)
    requires |p1| * seg1 <= total1 && |p2| * seg2 <= total2
    requires lo1 == p1[i] && lo2 == p2[i]
    requires o1[..] == Flatten(p1[..i]) + Pad(total1 - i * seg1, empty)
    requires o2[..] == Flatten(p2[..i]) + Pad(total2 - i * seg2, empty)
    modifies o1, o2
    ensures o1[..] == Flatten(p1[..i + 1]) + Pad(total1 - (i + 1) * seg1, empty)
    ensures o2[..] == Flatten(p2[..i + 1]) + Pad(total2 - (i + 1) * seg2, empty)
  {
    StoreSegment(o1, p1, seg1, total1, empty, i, lo1);
    ghost var kept := o1[..];
    StoreSegment(o2, p2, seg2, total2, empty, i, lo2);
    assert o1[..] == kept;
  }

  /** In the gathered vector, segment [i * seg, (i + 1) * seg) is the part
      sent by rank i, and the cells after the last segment are untouched. */
  lemma {:induction false} GatheredSegment<T>(parts: seq<seq<T>>, seg: nat, total: nat, empty: T, i: nat, k: nat)
    requires Uniform(parts, seg) && |parts| * seg <= total && i < |parts| && k < seg
    ensures |Flatten(parts)| == |parts| * seg
    ensures i * seg + k < |parts| * seg <= total
    ensures (Flatten(parts) + Pad(total - |parts| * seg, empty))[i * seg + k] == parts[i][k]
  {
    FlattenAt(parts, seg, i, k);
  }

  /** The outboxes of the first-row ranks in atax (`comm.Send(ly, dest=0,
      tag=pj)` from rank pj) and in bicg satisfy the gathers' delivery
      requirements. */
  lemma OutboxesDeliver<T>(parts: seq<seq<T>>, p2: seq<seq<T>>)
    requires |parts| == |p2|
    ensures var ob := seq(|parts|, i requires 0 <= i < |parts| => VectorSends(i, parts[i]));
            forall i :: 1 <= i < |parts| ==> Delivered(ob[i], 0, i) == Some(parts[i])
    ensures var ob := seq(|parts|, i requires 0 <= i < |parts| => BicgSends(i, |parts|, parts[i], p2[i]));
            forall i :: 1 <= i < |parts| ==>
              Delivered(ob[i], 0, i) == Some(parts[i]) && Delivered(ob[i], 0, i + |parts|) == Some(p2[i])
  {
    forall i | 1 <= i < |parts|
      ensures Delivered(BicgSends(i, |parts|, parts[i], p2[i]), 0, i) == Some(parts[i])
      ensures Delivered(BicgSends(i, |parts|, parts[i], p2[i]), 0, i + |parts|) == Some(p2[i])
    {
      BicgDelivers(i, |parts|, parts[i], p2[i]);
    }
  }
}
