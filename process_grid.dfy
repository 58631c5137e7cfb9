// The process grid of the distributed benchmarks: the table of supported
// process counts, the rank <-> grid-coordinate map, the block sizes of the
// block distribution and the local-to-global index map `l2g`.
module ProcessGrid {
  import opened Seqs

  /** The supported process counts and the (Px, Py) grid used for each. */
  const GridTable: map<nat, (nat, nat)> :=
    map[1 := (1, 1), 2 := (1, 2), 4 := (2, 2), 8 := (2, 4), 16 := (4, 4),
        32 := (4, 8), 64 := (8, 8), 128 := (8, 16), 256 := (16, 16)]

  function Pow2(k: nat): nat
  {
    if k == 0 then 1 else 2 * Pow2(k - 1)
  }

  /** `grid[size]`: the grid for `size` processes, or None for a count the
      table does not list (where the dictionary lookup raises KeyError). */
  function Grid(size: nat): (g: Option<(nat, nat)>)
    ensures g.Some? ==> g.value.0 * g.value.1 == size
    ensures g.Some? ==> 1 <= g.value.0 && (g.value.1 == g.value.0 || g.value.1 == 2 * g.value.0)
  {
    if size in GridTable then Some(GridTable[size]) else None
  }

  /** The powers of two the table lists. */
  lemma Pow2Values()
    ensures Pow2(0) == 1 && Pow2(1) == 2 && Pow2(2) == 4 && Pow2(3) == 8 && Pow2(4) == 16
    ensures Pow2(5) == 32 && Pow2(6) == 64 && Pow2(7) == 128 && Pow2(8) == 256
  {
  }

  /** The exponent of a process count the table lists. */
  function Log2Of(size: nat): (k: nat)
    requires size in GridTable
    ensures k <= 8 && size == Pow2(k)
  {
    Pow2Values();
    if size == 1 then 0 else if size == 2 then 1 else if size == 4 then 2
    else if size == 8 then 3 else if size == 16 then 4 else if size == 32 then 5
    else if size == 64 then 6 else if size == 128 then 7 else 8
  }

  /** The table covers exactly the powers of two from 1 to 256. */
  lemma GridDomain(size: nat)
    ensures Grid(size).Some? <==> exists k: nat :: k <= 8 && size == Pow2(k)
  {
    assert GridTable.Keys == {1, 2, 4, 8, 16, 32, 64, 128, 256};
    if size in GridTable {
      var k := Log2Of(size);
      assert k <= 8 && size == Pow2(k);
    } else {
      Pow2Values();
      forall k: nat | k <= 8
        ensures size != Pow2(k)
      {
        assert k == 0 || k == 1 || k == 2 || k == 3 || k == 4 || k == 5 || k == 6 || k == 7 || k == 8;
      }
    }
  }

  /** grid coordinate of a rank: `pi = rank // Py`, `pj = rank % Py`. */
  function Coord(rank: nat, py: nat): (nat, nat)
    requires py > 0
  {
    (rank / py, rank % py)
  }

  /** The rank at grid coordinate (pi, pj), in row-major order. */
  function RankOf(pi: nat, pj: nat, py: nat): nat
  {
    pi * py + pj
  }

  /** Euclidean division is determined by quotient and remainder. */
  lemma DivModUnique(a: int, b: int, q: int, m: int)
    requires b > 0 && 0 <= m < b && a == q * b + m
    ensures a / b == q && a % b == m
  {
    var q0, m0 := a / b, a % b;
    assert a == q0 * b + m0;
    if q0 < q {
      MulMonotone(q0 + 1, q, b);
      assert false;
    } else if q < q0 {
      MulMonotone(q + 1, q0, b);
      assert false;
    }
  }

  /** rank -> coordinate lands in the grid and RankOf undoes it. */
  lemma CoordInGrid(rank: nat, px: nat, py: nat)
    requires py > 0 && rank < px * py
    ensures Coord(rank, py).0 < px && Coord(rank, py).1 < py
    ensures RankOf(Coord(rank, py).0, Coord(rank, py).1, py) == rank
  {
    var q := rank / py;
    if q >= px {
      MulMonotone(px, q, py);
      assert false;
    }
  }

  /** coordinate -> rank lands in [0, Px*Py) and Coord undoes it. */
  lemma RankOfInGrid(pi: nat, pj: nat, px: nat, py: nat)
    requires pi < px && pj < py
    ensures RankOf(pi, pj, py) < px * py
    ensures Coord(RankOf(pi, pj, py), py) == (pi, pj)
  {
    MulMonotone(pi + 1, px, py);
    DivModUnique(pi * py + pj, py, pi, pj);
  }

  /** `l2g(idx, pidx, bsize)`: the global index of local index `idx` in block `p`. */
  function L2G(idx: int, p: int, b: int): int
  {
    idx + p * b
  }

  /** Global indices of P blocks of size b stay in [0, P*b) and invert to
      (g // b, g % b). */
  lemma L2GRoundTrip(idx: nat, p: nat, b: nat, P: nat)
    requires idx < b && p < P
    ensures 0 <= L2G(idx, p, b) < P * b
    ensures L2G(idx, p, b) / b == p && L2G(idx, p, b) % b == idx
  {
    MulMonotone(p + 1, P, b);
    DivModUnique(L2G(idx, p, b), b, p, idx);
  }

  /** l2g is injective on local indices below the block size. */
  lemma L2GInjective(i1: nat, p1: nat, i2: nat, p2: nat, b: nat)
    requires i1 < b && i2 < b
    requires L2G(i1, p1, b) == L2G(i2, p2, b)
    ensures i1 == i2 && p1 == p2
  {
    L2GRoundTrip(i1, p1, b, p1 + 1);
    L2GRoundTrip(i2, p2, b, p2 + 1);
  }

  /** Every global index in [0, P*b) is l2g of exactly the pair (g % b, g // b). */
  lemma L2GOnto(g: nat, b: nat, P: nat)
    requires g < P * b
    ensures b > 0 && g / b < P && g % b < b
    ensures L2G(g % b, g / b, b) == g
  {
    CoordInGrid(g, P, b);
  }

  /** The block and local index of a global index in [0, P*b). */
  lemma Locate(g: nat, b: nat, P: nat) returns (p: nat, i: nat)
    requires g < P * b
    ensures p < P && i < b && L2G(i, p, b) == g
  {
    L2GOnto(g, b, P);
    p, i := g / b, g % b;
  }

  /** `lM = M // Px`: the block length of a global length split over `parts`
      processes. The division is floor division; the distribution is exact
      only when `parts` divides `global`. */
  function BlockSize(global: nat, parts: nat): (b: nat)
    requires parts > 0
    ensures b * parts <= global < (b + 1) * parts
    ensures global % parts == 0 <==> b * parts == global
  {
    global / parts
  }

  /** The gemm/2mm/3mm drivers swap the grid so that Px >= Py. */
  function GemmGrid(g: (nat, nat)): (r: (nat, nat))
    ensures r.0 * r.1 == g.0 * g.1
    ensures r.0 >= r.1
    ensures r == g || r == (g.1, g.0)
  {
    if g.0 < g.1 then (g.1, g.0) else g
  }
}
