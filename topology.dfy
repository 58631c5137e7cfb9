// ProcessTopology: the neighbour ranks and boundary offsets each process
// computes before running a stencil kernel. A neighbour off the grid is
// MPI.PROC_NULL, and the halo offset on that side is 1.
module Topology {
  import opened Seqs
  import opened ProcessGrid

  /** A neighbour: the rank of a process, or MPI.PROC_NULL. */
  datatype Nbr = Rank(r: int) | ProcNull

  /** The four sides of a block: north is the row above (pi - 1), west the column to the left (pj - 1). */
  datatype Dir = North | South | West | East

  function Opposite(d: Dir): Dir
  {
    match d
    case North => South
    case South => North
    case West => East
    case East => West
  }

  /** The grid coordinate one step from `c` toward `d`. */
  function Step(c: (int, int), d: Dir): (int, int)
  {
    match d
    case North => (c.0 - 1, c.1)
    case South => (c.0 + 1, c.1)
    case West => (c.0, c.1 - 1)
    case East => (c.0, c.1 + 1)
  }

  /** The neighbour ranks (nn, ns, nw, ne) of one process. */
  datatype Neighbors = Neighbors(nn: Nbr, ns: Nbr, nw: Nbr, ne: Nbr)
  {
    function At(d: Dir): Nbr
    {
      match d
      case North => nn
      case South => ns
      case West => nw
      case East => ne
    }
  }

  /** The halo offsets (noff, soff, woff, eoff): 1 on an edge side, 0 otherwise. */
  datatype Offsets = Offsets(noff: nat, soff: nat, woff: nat, eoff: nat)

  /** The one-dimensional neighbour ranks (nw, ne) and offsets (woff, eoff). */
  datatype Neighbors1D = Neighbors1D(nw: Nbr, ne: Nbr)
  datatype Offsets1D = Offsets1D(woff: nat, eoff: nat)

  /** The rank at coordinate `c` when `c` is on the Px x Py grid, PROC_NULL otherwise. */
  function Adjacent(c: (int, int), px: nat, py: nat): Nbr
  {
    if 0 <= c.0 < px && 0 <= c.1 < py then Rank(RankOf(c.0, c.1, py)) else ProcNull
  }

  /** The neighbours of `rank` on the Px x Py grid: in each direction, the
      process whose coordinate is one step away. */
  function NeighborsOf(rank: nat, px: nat, py: nat): Neighbors
    requires py > 0
  {
    var c := Coord(rank, py);
    Neighbors(Adjacent(Step(c, North), px, py), Adjacent(Step(c, South), px, py),
              Adjacent(Step(c, West), px, py), Adjacent(Step(c, East), px, py))
  }

  function EdgeOffset(n: Nbr): nat
  {
    if n.ProcNull? then 1 else 0
  }

  /** The offsets that go with a neighbour set. */
  function OffsetsOf(nb: Neighbors): Offsets
  {
    Offsets(EdgeOffset(nb.nn), EdgeOffset(nb.ns), EdgeOffset(nb.nw), EdgeOffset(nb.ne))
  }

  /** The neighbours of `rank` among `size` processes in a row. */
  function NeighborsOf1D(rank: nat, size: nat): Neighbors1D
  {
    Neighbors1D(if 0 <= rank - 1 < size then Rank(rank - 1) else ProcNull,
                if rank + 1 < size then Rank(rank + 1) else ProcNull)
  }

  function OffsetsOf1D(nb: Neighbors1D): Offsets1D
  {
    Offsets1D(EdgeOffset(nb.nw), EdgeOffset(nb.ne))
  }

  /** The topology one process derives for a two-dimensional stencil run. */
  datatype Topology2D = Topology2D(px: nat, py: nat, pi: nat, pj: nat, nbrs: Neighbors, offs: Offsets)

  datatype SetupError = UnsupportedProcessCount(size: nat)

  datatype Result<T> = Ok(value: T) | Err(error: SetupError)

  /** The set-up at the top of jacobi_2d and heat_3d: look the grid up, take
      the coordinate of `rank`, then compute the four neighbour ranks and
      reset each one on an edge to PROC_NULL with offset 1. */
  method Setup2D(rank: nat, size: nat) returns (res: Result<Topology2D>)
    requires rank < size
    ensures res.Err? <==> Grid(size).None?
    ensures res.Err? ==> res.error == UnsupportedProcessCount(size)
    ensures res.Ok? ==>
              var t := res.value;
              (t.px, t.py) == Grid(size).value && t.py > 0 &&
              (t.pi, t.pj) == Coord(rank, t.py) &&
              t.nbrs == NeighborsOf(rank, t.px, t.py) &&
              t.offs == OffsetsOf(t.nbrs)
  {
    var g := Grid(size);
    if g.None? {
      return Err(UnsupportedProcessCount(size));
    }
    var px, py := g.value.0, g.value.1;
    assert px * py == size;
    var pi, pj := rank / py, rank % py;
    CoordInGrid(rank, px, py);
    var noff, soff, woff, eoff := 0, 0, 0, 0;
    var nn := Rank((pi - 1) * py + pj);
    var ns := Rank((pi + 1) * py + pj);
    var nw := Rank(pi * py + (pj - 1));
    var ne := Rank(pi * py + (pj + 1));
    if pi == 0 {
      noff := 1;
      nn := ProcNull;
    }
    if pi == px - 1 {
      soff := 1;
      ns := ProcNull;
    }
    if pj == 0 {
      woff := 1;
      nw := ProcNull;
    }
    if pj == py - 1 {
      eoff := 1;
      ne := ProcNull;
    }
    FormulaNeighbors(pi, pj, px, py);
    res := Ok(Topology2D(px, py, pi, pj, Neighbors(nn, ns, nw, ne), Offsets(noff, soff, woff, eoff)));
  }

  /** The code's neighbour formulas agree with Adjacent off the edges. */
  lemma FormulaNeighbors(pi: nat, pj: nat, px: nat, py: nat)
    requires pi < px && pj < py
    ensures pi != 0 ==> Adjacent(Step((pi, pj), North), px, py) == Rank((pi - 1) * py + pj)
    ensures pi != px - 1 ==> Adjacent(Step((pi, pj), South), px, py) == Rank((pi + 1) * py + pj)
    ensures pj != 0 ==> Adjacent(Step((pi, pj), West), px, py) == Rank(pi * py + (pj - 1))
    ensures pj != py - 1 ==> Adjacent(Step((pi, pj), East), px, py) == Rank(pi * py + (pj + 1))
    ensures pi == 0 ==> Adjacent(Step((pi, pj), North), px, py) == ProcNull
    ensures pi == px - 1 ==> Adjacent(Step((pi, pj), South), px, py) == ProcNull
    ensures pj == 0 ==> Adjacent(Step((pi, pj), West), px, py) == ProcNull
    ensures pj == py - 1 ==> Adjacent(Step((pi, pj), East), px, py) == ProcNull
  {
  }

  /** The set-up at the top of jacobi_1d: ranks in a row, PROC_NULL and
      offset 1 past either end. */
  method Setup1D(rank: nat, size: nat) returns (nb: Neighbors1D, off: Offsets1D)
    requires rank < size
    ensures nb == NeighborsOf1D(rank, size) && off == OffsetsOf1D(nb)
  {
    var woff, eoff := 0, 0;
    var nw := Rank(rank - 1);
    var ne := Rank(rank + 1);
    if rank == 0 {
      woff := 1;
      nw := ProcNull;
    }
    if rank == size - 1 {
      eoff := 1;
      ne := ProcNull;
    }
    nb, off := Neighbors1D(nw, ne), Offsets1D(woff, eoff);
  }

  /** Each neighbour is PROC_NULL exactly on the corresponding grid edge, and
      otherwise it is a rank of the grid whose coordinate is one step away;
      the offset on a side is 1 exactly when that neighbour is PROC_NULL. */
  lemma NeighborValid(rank: nat, px: nat, py: nat, d: Dir)
    requires py > 0 && rank < px * py
    ensures var c := Coord(rank, py); var n := NeighborsOf(rank, px, py).At(d);
            && (n.ProcNull? <==>
                  match d
                  case North => c.0 == 0
                  case South => c.0 == px - 1
                  case West => c.1 == 0
                  case East => c.1 == py - 1)
            && (n.Rank? ==> 0 <= n.r < px * py && Coord(n.r, py) == Step(c, d))
  {
    var c := Coord(rank, py);
    CoordInGrid(rank, px, py);
    var s := Step(c, d);
    if 0 <= s.0 < px && 0 <= s.1 < py {
      RankOfInGrid(s.0, s.1, px, py);
    }
  }

  /** The offsets are 1 exactly on the edge sides of the grid. */
  lemma OffsetsOnEdges(rank: nat, px: nat, py: nat)
    requires py > 0 && rank < px * py
    ensures var c := Coord(rank, py); var o := OffsetsOf(NeighborsOf(rank, px, py));
            && o.noff == (if c.0 == 0 then 1 else 0)
            && o.soff == (if c.0 == px - 1 then 1 else 0)
            && o.woff == (if c.1 == 0 then 1 else 0)
            && o.eoff == (if c.1 == py - 1 then 1 else 0)
  {
    CoordInGrid(rank, px, py);
  }

  /** Neighbourhood is symmetric: the opposite neighbour of my neighbour is me
      (the south of my north is me). */
  lemma NeighborSymmetric(rank: nat, px: nat, py: nat, d: Dir)
    requires py > 0 && rank < px * py
    requires NeighborsOf(rank, px, py).At(d).Rank?
    ensures var s := NeighborsOf(rank, px, py).At(d).r;
            0 <= s < px * py && NeighborsOf(s, px, py).At(Opposite(d)) == Rank(rank)
  {
    NeighborValid(rank, px, py, d);
    CoordInGrid(rank, px, py);
    var c := Coord(rank, py);
    var s := NeighborsOf(rank, px, py).At(d).r;
    assert Step(Coord(s, py), Opposite(d)) == c;
  }

  /** On the 1 x 1 grid every neighbour is PROC_NULL and every offset is 1:
      the arguments of the single-process reference call of heat_3d. */
  lemma SingleProcessTopology()
    ensures NeighborsOf(0, 1, 1) == Neighbors(ProcNull, ProcNull, ProcNull, ProcNull)
    ensures OffsetsOf(NeighborsOf(0, 1, 1)) == Offsets(1, 1, 1, 1)
  {
  }

  /** The one-dimensional neighbours are the west and east neighbours of the
      one-row grid 1 x size, whose north and south are PROC_NULL. */
  lemma OneDimensionalIsOneRow(rank: nat, size: nat)
    requires rank < size
    ensures var nb := NeighborsOf(rank, 1, size);
            && nb.nn == ProcNull && nb.ns == ProcNull
            && NeighborsOf1D(rank, size) == Neighbors1D(nb.nw, nb.ne)
  {
    DivModUnique(rank, size, 0, rank);
  }
}
