// HaloExchanger for jacobi_2d and heat_3d: every rank holds an lM x lN
// block padded with one ghost row or column on each side, a buffer of
// (lM + 2) x (lN + 2) cells. One round posts four sends of
// boundary-adjacent rows and columns restricted to `1:-1`
// (`A[1, 1:-1]` north tag 0, `A[-2, 1:-1]` south tag 1, `A[1:-1, 1]` west
// tag 2, `A[1:-1, -2]` east tag 3) and four receives into the ghost rows
// and columns (`A[0, 1:-1]` from north tag 1, `A[-1, 1:-1]` from south
// tag 0, `A[1:-1, 0]` from west tag 3, `A[1:-1, -1]` from east tag 2).
// The corner ghosts are never written. heat_3d uses the same round with an
// undistributed third axis: there a cell is a whole k-line.
module Halo2D {
  import opened Seqs
  import opened ProcessGrid
  import opened Topology
  import opened Messages
  import opened Spans

  /** A padded block: `m + 2` rows of `n + 2` cells. */
  predicate BlockShaped<T>(b: seq<seq<T>>, m: nat, n: nat)
  {
    |b| == m + 2 && forall i :: 0 <= i < m + 2 ==> |b[i]| == n + 2
  }

  /** The buffers of all ranks of a Px x Py grid, one block per rank in rank order. */
  predicate Distributed<T>(bufs: seq<seq<seq<T>>>, m: nat, n: nat, px: nat, py: nat)
  {
    && py > 0 && |bufs| == px * py && m >= 1 && n >= 1
    && forall q :: 0 <= q < |bufs| ==> BlockShaped(bufs[q], m, n)
  }

  /** Position of the side in the posting order. */
  function DirIndex(d: Dir): nat
  {
    match d
    case North => 0
    case South => 1
    case West => 2
    case East => 3
  }

  /** The sends of one round in posting order. */
  function Sends(nb: Neighbors): seq<Send<Dir>>
  {
    [Send(nb.nn, 0, North), Send(nb.ns, 1, South), Send(nb.nw, 2, West), Send(nb.ne, 3, East)]
  }

  /** The receives of one round in posting order. */
  function Recvs(nb: Neighbors): seq<Recv<Dir>>
  {
    [Recv(nb.nn, 1, North), Recv(nb.ns, 0, South), Recv(nb.nw, 3, West), Recv(nb.ne, 2, East)]
  }

  /** Every posted send or receive goes to the neighbour on its own side. */
  lemma PostedToSide(nb: Neighbors, k: nat)
    requires k < 4
    ensures Sends(nb)[k].dest == nb.At(Sends(nb)[k].side) && DirIndex(Sends(nb)[k].side) == k
    ensures Recvs(nb)[k].source == nb.At(Recvs(nb)[k].side) && DirIndex(Recvs(nb)[k].side) == k
  {
  }

  /** Tag pairing, receive side: a receive from a rank is served by exactly
      one of that rank's sends, the one toward the opposite side (receive
      from north tag 1 by the south send tag 1, and so on). */
  lemma RecvMatched(rank: nat, px: nat, py: nat, k: nat)
    requires py > 0 && rank < px * py && k < 4
    requires Recvs(NeighborsOf(rank, px, py))[k].source.Rank?
    ensures var rv := Recvs(NeighborsOf(rank, px, py))[k];
            0 <= rv.source.r < px * py &&
            var sends := Sends(NeighborsOf(rv.source.r, px, py));
            && (forall j :: 0 <= j < |sends| ==> (Matches(sends[j], rank, rv.tag) <==> j == DirIndex(Opposite(rv.side))))
            && sends[DirIndex(Opposite(rv.side))].side == Opposite(rv.side)
  {
    var rv := Recvs(NeighborsOf(rank, px, py))[k];
    PostedToSide(NeighborsOf(rank, px, py), k);
    NeighborSymmetric(rank, px, py, rv.side);
  }

  /** Tag pairing, send side: a send to a rank is taken by exactly one receive
      posted there, the one on the opposite side, with the same source and tag. */
  lemma SendMatched(rank: nat, px: nat, py: nat, j: nat)
    requires py > 0 && rank < px * py && j < 4
    requires Sends(NeighborsOf(rank, px, py))[j].dest.Rank?
    ensures var sd := Sends(NeighborsOf(rank, px, py))[j];
            0 <= sd.dest.r < px * py &&
            var recvs := Recvs(NeighborsOf(sd.dest.r, px, py));
            forall k :: 0 <= k < |recvs| ==>
              (recvs[k].source == Rank(rank) && recvs[k].tag == sd.tag <==> k == DirIndex(Opposite(sd.side)))
  {
    var sd := Sends(NeighborsOf(rank, px, py))[j];
    PostedToSide(NeighborsOf(rank, px, py), j);
    NeighborSymmetric(rank, px, py, sd.side);
  }

  /** The cells a send toward `d` carries: row 1 or row lM, or column 1 or
      column lN, restricted to the interior `1:-1`. */
  function Boundary<T>(b: seq<seq<T>>, d: Dir, m: nat, n: nat): (s: seq<T>)
    requires BlockShaped(b, m, n)
    ensures |s| == (if d == North || d == South then n else m)
  {
    match d
    case North => b[1][1..n + 1]
    case South => b[m][1..n + 1]
    case West => seq(m, k requires 0 <= k < m => b[k + 1][1])
    case East => seq(m, k requires 0 <= k < m => b[k + 1][n])
  }

  /** Whether cell (i, j) belongs to the ghost row or column on side `d`
      (corners excluded). */
  predicate GhostOf(d: Dir, i: nat, j: nat, m: nat, n: nat)
  {
    match d
    case North => i == 0 && 1 <= j <= n
    case South => i == m + 1 && 1 <= j <= n
    case West => j == 0 && 1 <= i <= m
    case East => j == n + 1 && 1 <= i <= m
  }

  /** The position within the received slice of ghost cell (i, j). */
  function GhostSlot(d: Dir, i: nat, j: nat): int
  {
    if d == North || d == South then j - 1 else i - 1
  }

  /** The block after a receive on side `d` wrote slice `s` into that ghost
      row or column. */
  function WithGhost<T>(b: seq<seq<T>>, d: Dir, s: seq<T>, m: nat, n: nat): (r: seq<seq<T>>)
    requires BlockShaped(b, m, n) && |s| == (if d == North || d == South then n else m)
    ensures BlockShaped(r, m, n)
    ensures forall i, j :: 0 <= i < m + 2 && 0 <= j < n + 2 ==>
              r[i][j] == if GhostOf(d, i, j, m, n) then s[GhostSlot(d, i, j)] else b[i][j]
  {
    seq(m + 2, i requires 0 <= i < m + 2 =>
      seq(n + 2, j requires 0 <= j < n + 2 =>
        if GhostOf(d, i, j, m, n) then s[GhostSlot(d, i, j)] else b[i][j]))
  }

  /** The cell law of one round: a ghost cell facing a neighbour holds that
      neighbour's boundary-adjacent interior cell on the same row or column;
      interior cells, corner ghosts and ghosts facing PROC_NULL keep their
      values. */
  function HaloCell<T>(bufs: seq<seq<seq<T>>>, m: nat, n: nat, px: nat, py: nat, r: nat, i: nat, j: nat): T
    requires Distributed(bufs, m, n, px, py) && r < |bufs| && i < m + 2 && j < n + 2
  {
    var nb := NeighborsOf(r, px, py);
    NeighborValid(r, px, py, North);
    NeighborValid(r, px, py, South);
    NeighborValid(r, px, py, West);
    NeighborValid(r, px, py, East);
    if i == 0 && 1 <= j <= n && nb.nn.Rank? then bufs[nb.nn.r][m][j]
    else if i == m + 1 && 1 <= j <= n && nb.ns.Rank? then bufs[nb.ns.r][1][j]
    else if j == 0 && 1 <= i <= m && nb.nw.Rank? then bufs[nb.nw.r][i][n]
    else if j == n + 1 && 1 <= i <= m && nb.ne.Rank? then bufs[nb.ne.r][i][1]
    else bufs[r][i][j]
  }

  /** All buffers after one round, by the cell law. */
  function Exchanged<T>(bufs: seq<seq<seq<T>>>, m: nat, n: nat, px: nat, py: nat): (res: seq<seq<seq<T>>>)
    requires Distributed(bufs, m, n, px, py)
    ensures Distributed(res, m, n, px, py)
  {
    seq(|bufs|, r requires 0 <= r < |bufs| =>
      seq(m + 2, i requires 0 <= i < m + 2 =>
        seq(n + 2, j requires 0 <= j < n + 2 => HaloCell(bufs, m, n, px, py, r, i, j))))
  }

  /** The effect of the k-th receive of rank `r` when the matching send reads
      the blocks `cur`. */
  function ApplyRecv<T>(cur: seq<seq<seq<T>>>, m: nat, n: nat, px: nat, py: nat, r: nat, k: nat, a: seq<seq<T>>): (a': seq<seq<T>>)
    requires Distributed(cur, m, n, px, py) && r < |cur| && k < 4 && BlockShaped(a, m, n)
    ensures BlockShaped(a', m, n)
  {
    var rv := Recvs(NeighborsOf(r, px, py))[k];
    PostedToSide(NeighborsOf(r, px, py), k);
    NeighborValid(r, px, py, rv.side);
    if rv.source.Rank?
    then WithGhost(a, rv.side, Boundary(cur[rv.source.r], Opposite(rv.side), m, n), m, n)
    else a
  }

  /** Completion of the k-th receive of rank `r`: the matching send is looked
      up among those its source posted, and the slice it carries is written
      into the ghost row or column; a receive from PROC_NULL writes nothing. */
  method Receive<T>(cur: seq<seq<seq<T>>>, m: nat, n: nat, px: nat, py: nat, r: nat, k: nat, a: seq<seq<T>>)
    returns (a': seq<seq<T>>)
    requires Distributed(cur, m, n, px, py) && r < |cur| && k < 4 && BlockShaped(a, m, n)
    ensures a' == ApplyRecv(cur, m, n, px, py, r, k, a)
  {
    var rv := Recvs(NeighborsOf(r, px, py))[k];
    a' := a;
    if rv.source.Rank? {
      RecvMatched(r, px, py, k);
      var s := rv.source.r;
      var sends := Sends(NeighborsOf(s, px, py));
      var j := FindSend(sends, r, rv.tag);
      a' := WithGhost(a, rv.side, Boundary(cur[s], sends[j].side, m, n), m, n);
    }
  }

  /** Two families of blocks with the same interiors. */
  ghost predicate SameInteriors<T>(x: seq<seq<seq<T>>>, y: seq<seq<seq<T>>>, m: nat, n: nat)
    requires forall q :: 0 <= q < |x| ==> BlockShaped(x[q], m, n)
    requires forall q :: 0 <= q < |y| ==> BlockShaped(y[q], m, n)
  {
    |x| == |y| &&
    forall q :: 0 <= q < |x| ==>
      BlockShaped(x[q], m, n) && BlockShaped(y[q], m, n) &&
      forall i, j :: 1 <= i <= m && 1 <= j <= n ==> x[q][i][j] == y[q][i][j]
  }

  /** A round changes ghost cells only. */
  lemma InteriorKept<T>(bufs: seq<seq<seq<T>>>, m: nat, n: nat, px: nat, py: nat)
    requires Distributed(bufs, m, n, px, py)
    ensures SameInteriors(Exchanged(bufs, m, n, px, py), bufs, m, n)
  {
  }

  /** The cell of a neighbour's block that a ghost cell on side `d` receives. */
  function FacingCell<T>(b: seq<seq<T>>, d: Dir, i: nat, j: nat, m: nat, n: nat): T
    requires BlockShaped(b, m, n) && GhostOf(d, i, j, m, n)
  {
    match d
    case North => b[m][j]
    case South => b[1][j]
    case West => b[i][n]
    case East => b[i][1]
  }

  /** One cell after the k-th receive of rank `r`. */
  lemma ApplyRecvCell<T>(cur: seq<seq<seq<T>>>, m: nat, n: nat, px: nat, py: nat, r: nat, k: nat, a: seq<seq<T>>, i: nat, j: nat)
    requires Distributed(cur, m, n, px, py) && r < |cur| && k < 4 && BlockShaped(a, m, n)
    requires i < m + 2 && j < n + 2
    ensures var rv := Recvs(NeighborsOf(r, px, py))[k];
            rv.source.Rank? ==> 0 <= rv.source.r < |cur|
    ensures var rv := Recvs(NeighborsOf(r, px, py))[k];
            ApplyRecv(cur, m, n, px, py, r, k, a)[i][j]
            == if rv.source.Rank? && GhostOf(rv.side, i, j, m, n)
               then FacingCell(cur[rv.source.r], rv.side, i, j, m, n)
               else a[i][j]
  {
    var rv := Recvs(NeighborsOf(r, px, py))[k];
    PostedToSide(NeighborsOf(r, px, py), k);
    NeighborValid(r, px, py, rv.side);
    if rv.source.Rank? {
      var sl := Boundary(cur[rv.source.r], Opposite(rv.side), m, n);
      var a' := WithGhost(a, rv.side, sl, m, n);
      assert ApplyRecv(cur, m, n, px, py, r, k, a) == a';
      if GhostOf(rv.side, i, j, m, n) {
        BoundaryFacing(cur[rv.source.r], rv.side, i, j, m, n);
      }
    }
  }

  /** The slice a neighbour sends toward side `d` holds, at the slot of a
      ghost cell on side `d`, the cell that ghost cell faces. */
  lemma BoundaryFacing<T>(b: seq<seq<T>>, d: Dir, i: nat, j: nat, m: nat, n: nat)
    requires BlockShaped(b, m, n) && GhostOf(d, i, j, m, n)
    ensures 0 <= GhostSlot(d, i, j) < |Boundary(b, Opposite(d), m, n)|
    ensures Boundary(b, Opposite(d), m, n)[GhostSlot(d, i, j)] == FacingCell(b, d, i, j, m, n)
  {
  }

  /** The four receives of rank `r`, served from blocks with the original
      interiors and applied to its original block, yield its block after the
      round. */
  lemma ReceivesGiveExchanged<T>(bufs: seq<seq<seq<T>>>, cur: seq<seq<seq<T>>>, m: nat, n: nat, px: nat, py: nat, r: nat)
    requires Distributed(bufs, m, n, px, py) && Distributed(cur, m, n, px, py)
    requires SameInteriors(cur, bufs, m, n) && r < |bufs|
    ensures var a0 := bufs[r];
            var a1 := ApplyRecv(cur, m, n, px, py, r, 0, a0);
            var a2 := ApplyRecv(cur, m, n, px, py, r, 1, a1);
            var a3 := ApplyRecv(cur, m, n, px, py, r, 2, a2);
            ApplyRecv(cur, m, n, px, py, r, 3, a3) == Exchanged(bufs, m, n, px, py)[r]
  {
    var a0 := bufs[r];
    var a1 := ApplyRecv(cur, m, n, px, py, r, 0, a0);
    var a2 := ApplyRecv(cur, m, n, px, py, r, 1, a1);
    var a3 := ApplyRecv(cur, m, n, px, py, r, 2, a2);
    var a4 := ApplyRecv(cur, m, n, px, py, r, 3, a3);
    var ex := Exchanged(bufs, m, n, px, py)[r];
    forall i | 0 <= i < m + 2
      ensures a4[i] == ex[i]
    {
      forall j | 0 <= j < n + 2
        ensures a4[i][j] == ex[i][j]
      {
        CellAfterReceives(bufs, cur, m, n, px, py, r, i, j);
      }
    }
  }

  /** One cell of ReceivesGiveExchanged. */
  lemma CellAfterReceives<T>(bufs: seq<seq<seq<T>>>, cur: seq<seq<seq<T>>>, m: nat, n: nat, px: nat, py: nat, r: nat, i: nat, j: nat)
    requires Distributed(bufs, m, n, px, py) && Distributed(cur, m, n, px, py)
    requires SameInteriors(cur, bufs, m, n) && r < |bufs| && i < m + 2 && j < n + 2
    ensures var a0 := bufs[r];
            var a1 := ApplyRecv(cur, m, n, px, py, r, 0, a0);
            var a2 := ApplyRecv(cur, m, n, px, py, r, 1, a1);
            var a3 := ApplyRecv(cur, m, n, px, py, r, 2, a2);
            ApplyRecv(cur, m, n, px, py, r, 3, a3)[i][j] == HaloCell(bufs, m, n, px, py, r, i, j)
  {
    var nb := NeighborsOf(r, px, py);
    var a0 := bufs[r];
    var a1 := ApplyRecv(cur, m, n, px, py, r, 0, a0);
    var a2 := ApplyRecv(cur, m, n, px, py, r, 1, a1);
    var a3 := ApplyRecv(cur, m, n, px, py, r, 2, a2);
    ApplyRecvCell(cur, m, n, px, py, r, 0, a0, i, j);
    ApplyRecvCell(cur, m, n, px, py, r, 1, a1, i, j);
    ApplyRecvCell(cur, m, n, px, py, r, 2, a2, i, j);
    ApplyRecvCell(cur, m, n, px, py, r, 3, a3, i, j);
    if GhostOf(North, i, j, m, n) && nb.nn.Rank? {
      NeighborValid(r, px, py, North);
      assert cur[nb.nn.r][m][j] == bufs[nb.nn.r][m][j];
    } else if GhostOf(South, i, j, m, n) && nb.ns.Rank? {
      NeighborValid(r, px, py, South);
      assert cur[nb.ns.r][1][j] == bufs[nb.ns.r][1][j];
    } else if GhostOf(West, i, j, m, n) && nb.nw.Rank? {
      NeighborValid(r, px, py, West);
      assert cur[nb.nw.r][i][n] == bufs[nb.nw.r][i][n];
    } else if GhostOf(East, i, j, m, n) && nb.ne.Rank? {
      NeighborValid(r, px, py, East);
      assert cur[nb.ne.r][i][1] == bufs[nb.ne.r][i][1];
    }
  }

  /** One exchange round over all ranks: the four receives complete at every
      rank, each served by the matching send of the neighbour. */
  method ExchangeRound<T>(bufs: seq<seq<seq<T>>>, m: nat, n: nat, px: nat, py: nat) returns (res: seq<seq<seq<T>>>)
    requires Distributed(bufs, m, n, px, py)
    ensures res == Exchanged(bufs, m, n, px, py)
  {
    var size := |bufs|;
    res := bufs;
    InteriorKept(bufs, m, n, px, py);
    for r := 0 to size
      invariant Distributed(res, m, n, px, py) && SameInteriors(res, bufs, m, n)
      invariant forall q :: 0 <= q < r ==> res[q] == Exchanged(bufs, m, n, px, py)[q]
      invariant forall q :: r <= q < size ==> res[q] == bufs[q]
    {
      ReceivesGiveExchanged(bufs, res, m, n, px, py, r);
      var a := res[r];
      a := Receive(res, m, n, px, py, r, 0, a);
      a := Receive(res, m, n, px, py, r, 1, a);
      a := Receive(res, m, n, px, py, r, 2, a);
      a := Receive(res, m, n, px, py, r, 3, a);
      res := res[r := a];
    }
  }

  /** The cell law on the grid: the north ghost row of the process at
      (pi, pj) holds row lM of the process at (pi - 1, pj), the south ghost
      row holds row 1 of (pi + 1, pj), the west ghost column holds column lN
      of (pi, pj - 1), the east ghost column column 1 of (pi, pj + 1); on a
      grid edge the ghost keeps its value, and corners and interior never
      change. */
  lemma ExchangeOnGrid<T>(bufs: seq<seq<seq<T>>>, m: nat, n: nat, px: nat, py: nat, r: nat, i: nat, j: nat)
    requires Distributed(bufs, m, n, px, py) && r < |bufs| && i < m + 2 && j < n + 2
    ensures var c, ex := Coord(r, py), Exchanged(bufs, m, n, px, py)[r][i][j];
            && c.0 < px && c.1 < py
            && (i == 0 && 1 <= j <= n && c.0 > 0 ==>
                  RankOf(c.0 - 1, c.1, py) < |bufs| && ex == bufs[RankOf(c.0 - 1, c.1, py)][m][j])
            && (i == m + 1 && 1 <= j <= n && c.0 < px - 1 ==>
                  RankOf(c.0 + 1, c.1, py) < |bufs| && ex == bufs[RankOf(c.0 + 1, c.1, py)][1][j])
            && (j == 0 && 1 <= i <= m && c.1 > 0 ==>
                  RankOf(c.0, c.1 - 1, py) < |bufs| && ex == bufs[RankOf(c.0, c.1 - 1, py)][i][n])
            && (j == n + 1 && 1 <= i <= m && c.1 < py - 1 ==>
                  RankOf(c.0, c.1 + 1, py) < |bufs| && ex == bufs[RankOf(c.0, c.1 + 1, py)][i][1])
            && ((i == 0 && c.0 == 0) || (i == m + 1 && c.0 == px - 1) ||
                (j == 0 && c.1 == 0) || (j == n + 1 && c.1 == py - 1) ||
                (1 <= i <= m && 1 <= j <= n) ||
                ((i == 0 || i == m + 1) && (j == 0 || j == n + 1))
                ==> ex == bufs[r][i][j])
  {
    var c := Coord(r, py);
    CoordInGrid(r, px, py);
    if c.0 > 0 {
      RankOfInGrid(c.0 - 1, c.1, px, py);
    }
    if c.0 < px - 1 {
      RankOfInGrid(c.0 + 1, c.1, px, py);
    }
    if c.1 > 0 {
      RankOfInGrid(c.0, c.1 - 1, px, py);
    }
    if c.1 < py - 1 {
      RankOfInGrid(c.0, c.1 + 1, px, py);
    }
  }

  /** On the 1 x 1 grid a round changes nothing: every side faces PROC_NULL. */
  lemma SingleProcessExchange<T>(bufs: seq<seq<seq<T>>>, m: nat, n: nat)
    requires Distributed(bufs, m, n, 1, 1)
    ensures Exchanged(bufs, m, n, 1, 1) == bufs
  {
    SingleProcessTopology();
    var ex := Exchanged(bufs, m, n, 1, 1);
    forall i | 0 <= i < m + 2
      ensures ex[0][i] == bufs[0][i]
    {
      assert forall j :: 0 <= j < n + 2 ==> ex[0][i][j] == bufs[0][i][j];
    }
    assert ex[0] == bufs[0];
  }

  /** One round of heat_3d: the same exchange with an undistributed third
      axis, so that a cell is a whole k-line of length N and a slice such as
      `A[1, 1:-1]` carries lN k-lines. The k-lines keep their length. */
  method HeatExchangeRound<V>(bufs: seq<seq<seq<seq<V>>>>, m: nat, n: nat, nz: nat, px: nat, py: nat)
    returns (res: seq<seq<seq<seq<V>>>>)
    requires Distributed(bufs, m, n, px, py)
    requires forall q, i, j :: 0 <= q < |bufs| && 0 <= i < m + 2 && 0 <= j < n + 2 ==> |bufs[q][i][j]| == nz
    ensures res == Exchanged(bufs, m, n, px, py)
    ensures forall q, i, j :: 0 <= q < |res| && 0 <= i < m + 2 && 0 <= j < n + 2 ==> |res[q][i][j]| == nz
  {
    res := ExchangeRound(bufs, m, n, px, py);
    forall q, i, j | 0 <= q < |res| && 0 <= i < m + 2 && 0 <= j < n + 2
      ensures |res[q][i][j]| == nz
    {
      NeighborValid(q, px, py, North);
      NeighborValid(q, px, py, South);
      NeighborValid(q, px, py, West);
      NeighborValid(q, px, py, East);
    }
  }

  /** NumPy's elementwise application of the five-point expression. */
  function Map5<T>(f: (T, T, T, T, T) -> T, c: seq<T>, w: seq<T>, e: seq<T>, s: seq<T>, nn: seq<T>): (r: seq<T>)
    requires |c| == |w| == |e| == |s| == |nn|
    ensures |r| == |c| && forall k :: 0 <= k < |c| ==> r[k] == f(c[k], w[k], e[k], s[k], nn[k])
  {
    seq(|c|, k requires 0 <= k < |c| => f(c[k], w[k], e[k], s[k], nn[k]))
  }

  /** The rows `1+noff:-1-soff` and columns `1+woff:-1-eoff` written by a sweep. */
  predicate Written(i: int, j: int, m: nat, n: nat, o: Offsets)
  {
    1 + o.noff <= i < m + 1 - o.soff && 1 + o.woff <= j < n + 1 - o.eoff
  }

  /** One row of a sweep: the written columns `1+woff:-1-eoff` of row `bi`
      computed from the centre row `c` (at columns j, j - 1, j + 1) and the
      rows below and above it; the other columns are kept. */
  function SweepRow<T>(c: seq<T>, up: seq<T>, down: seq<T>, bi: seq<T>, n: nat, woff: nat, eoff: nat,
                       f: (T, T, T, T, T) -> T): (r: seq<T>)
    requires |c| == |up| == |down| == |bi| == n + 2 && woff <= 1 && eoff <= 1
    ensures |r| == n + 2
    ensures forall j :: 0 <= j < n + 2 ==>
              r[j] == if 1 + woff <= j < n + 1 - eoff then f(c[j], c[j - 1], c[j + 1], down[j], up[j]) else bi[j]
  {
    var cw := WriteSpan(n + 2, woff, eoff);
    var c0, c1, c2 := ReadSpan(n + 2, woff, eoff, 0), ReadSpan(n + 2, woff, eoff, 1), ReadSpan(n + 2, woff, eoff, 2);
    if cw.Length() == 0 then bi
    else bi[..cw.lo] + Map5(f, c[c1.lo..c1.hi], c[c0.lo..c0.hi], c[c2.lo..c2.hi], down[c1.lo..c1.hi], up[c1.lo..c1.hi]) + bi[cw.hi..]
  }

  /** Row i of B after a sweep: swept when it lies in the written rows
      `1+noff:-1-soff`, kept otherwise. */
  function SweptRow<T>(a: seq<seq<T>>, b: seq<seq<T>>, m: nat, n: nat, o: Offsets, f: (T, T, T, T, T) -> T, i: nat)
    : (r: seq<T>)
    requires BlockShaped(a, m, n) && BlockShaped(b, m, n) && i < m + 2
    requires o.noff <= 1 && o.soff <= 1 && o.woff <= 1 && o.eoff <= 1
    ensures |r| == n + 2
  {
    if 1 + o.noff <= i < m + 1 - o.soff
    then SweepRow(a[i], a[i - 1], a[i + 1], b[i], n, o.woff, o.eoff, f)
    else b[i]
  }

  /** One sweep of jacobi_2d: `B[1+noff:-1-soff, 1+woff:-1-eoff] =
      f(A[.., 1+woff:-1-eoff], A[.., woff:-2-eoff], A[.., 2+woff:-eoff],
      A[2+noff:-soff, ..], A[noff:-2-soff, ..])`, row by row; f stands for
      the five-point arithmetic. */
  function Sweep2D<T>(a: seq<seq<T>>, b: seq<seq<T>>, m: nat, n: nat, o: Offsets, f: (T, T, T, T, T) -> T): (r: seq<seq<T>>)
    requires BlockShaped(a, m, n) && BlockShaped(b, m, n)
    requires o.noff <= 1 && o.soff <= 1 && o.woff <= 1 && o.eoff <= 1
    ensures BlockShaped(r, m, n)
  {
    seq(m + 2, i requires 0 <= i < m + 2 => SweptRow(a, b, m, n, o, f, i))
  }

  /** Cell j of a swept row: the five-point expression on a written column,
      B's old cell elsewhere. */
  lemma SweptRowCell<T>(a: seq<seq<T>>, b: seq<seq<T>>, m: nat, n: nat, o: Offsets, f: (T, T, T, T, T) -> T, i: nat, j: nat)
    requires BlockShaped(a, m, n) && BlockShaped(b, m, n)
    requires o.noff <= 1 && o.soff <= 1 && o.woff <= 1 && o.eoff <= 1
    requires 1 + o.noff <= i < m + 1 - o.soff && j < n + 2
    ensures SweptRow(a, b, m, n, o, f, i)[j]
            == if 1 + o.woff <= j < n + 1 - o.eoff
               then f(a[i][j], a[i][j - 1], a[i][j + 1], a[i + 1][j], a[i - 1][j])
               else b[i][j]
  {
    var row := SweepRow(a[i], a[i - 1], a[i + 1], b[i], n, o.woff, o.eoff, f);
    assert SweptRow(a, b, m, n, o, f, i) == row;
  }

  /** Each written cell of a sweep is computed from itself and its west,
      east, south and north neighbours; every other cell of B is kept. */
  lemma SweepCell<T>(a: seq<seq<T>>, b: seq<seq<T>>, m: nat, n: nat, o: Offsets, f: (T, T, T, T, T) -> T, i: nat, j: nat)
    requires BlockShaped(a, m, n) && BlockShaped(b, m, n)
    requires o.noff <= 1 && o.soff <= 1 && o.woff <= 1 && o.eoff <= 1
    requires i < m + 2 && j < n + 2
    ensures Sweep2D(a, b, m, n, o, f)[i][j]
            == if Written(i, j, m, n, o)
               then f(a[i][j], a[i][j - 1], a[i][j + 1], a[i + 1][j], a[i - 1][j])
               else b[i][j]
  {
    assert Sweep2D(a, b, m, n, o, f)[i] == SweptRow(a, b, m, n, o, f, i);
    if 1 + o.noff <= i < m + 1 - o.soff {
      SweptRowCell(a, b, m, n, o, f, i, j);
    }
  }

  /** The cells a sweep may read: the interior, and a ghost row or column
      (corners excluded) only on a side that faces a neighbour. */
  predicate Readable(i: int, j: int, m: nat, n: nat, o: Offsets)
  {
    || (1 <= i <= m && 1 <= j <= n)
    || (i == 0 && 1 <= j <= n && o.noff == 0)
    || (i == m + 1 && 1 <= j <= n && o.soff == 0)
    || (j == 0 && 1 <= i <= m && o.woff == 0)
    || (j == n + 1 && 1 <= i <= m && o.eoff == 0)
  }

  /** A sweep reads no corner ghost and no ghost on an edge side: two inputs
      that agree on the readable cells give the same result. So the corners,
      which no round writes, and the edge ghosts, which no round receives,
      never matter. */
  lemma SweepReadsOnlyReadable<T>(a: seq<seq<T>>, a': seq<seq<T>>, b: seq<seq<T>>, m: nat, n: nat, o: Offsets, f: (T, T, T, T, T) -> T)
    requires BlockShaped(a, m, n) && BlockShaped(a', m, n) && BlockShaped(b, m, n)
    requires o.noff <= 1 && o.soff <= 1 && o.woff <= 1 && o.eoff <= 1
    requires forall i, j :: 0 <= i < m + 2 && 0 <= j < n + 2 && Readable(i, j, m, n, o) ==> a[i][j] == a'[i][j]
    ensures Sweep2D(a, b, m, n, o, f) == Sweep2D(a', b, m, n, o, f)
  {
    var r, r' := Sweep2D(a, b, m, n, o, f), Sweep2D(a', b, m, n, o, f);
    forall i | 0 <= i < m + 2
      ensures r[i] == r'[i]
    {
      forall j | 0 <= j < n + 2
        ensures r[i][j] == r'[i][j]
      {
        SweepCell(a, b, m, n, o, f, i, j);
        SweepCell(a', b, m, n, o, f, i, j);
        if Written(i, j, m, n, o) {
          assert Readable(i, j, m, n, o) && Readable(i, j - 1, m, n, o) && Readable(i, j + 1, m, n, o);
          assert Readable(i + 1, j, m, n, o) && Readable(i - 1, j, m, n, o);
        }
      }
    }
  }

  /** A sweep writes interior cells only: every ghost cell of B keeps its value. */
  lemma SweepKeepsGhosts<T>(a: seq<seq<T>>, b: seq<seq<T>>, m: nat, n: nat, o: Offsets, f: (T, T, T, T, T) -> T, i: nat, j: nat)
    requires BlockShaped(a, m, n) && BlockShaped(b, m, n)
    requires o.noff <= 1 && o.soff <= 1 && o.woff <= 1 && o.eoff <= 1
    requires i < m + 2 && j < n + 2 && (i == 0 || i == m + 1 || j == 0 || j == n + 1)
    ensures Sweep2D(a, b, m, n, o, f)[i][j] == b[i][j]
  {
    SweepCell(a, b, m, n, o, f, i, j);
  }
}
