// HaloExchanger for jacobi_1d: every rank holds lR interior cells between
// two ghost cells (a buffer of length lR + 2). One round posts
// Isend(A[1], nw, 3), Isend(A[-2], ne, 2), Irecv(A[0], nw, 2),
// Irecv(A[-1], ne, 3) and waits for all four; the sweep that follows is
// shifted by the offsets (woff, eoff) so that an edge rank never reads the
// ghost cell it never received.
//
// The round is simulated sequentially, rank by rank. This is faithful
// because sends read interior cells and receives write ghost cells only.
module Halo1D {
  import opened Seqs
  import opened ProcessGrid
  import opened Topology
  import opened Messages
  import opened Spans

  /** The two ends of a one-dimensional block. */
  datatype End = WestEnd | EastEnd

  function Flip(e: End): End
  {
    match e
    case WestEnd => EastEnd
    case EastEnd => WestEnd
  }

  /** Every buffer holds `l` interior cells between two ghost cells. */
  predicate Shaped<T>(bufs: seq<seq<T>>, l: nat)
  {
    forall r :: 0 <= r < |bufs| ==> |bufs[r]| == l + 2
  }

  /** The cell a send toward `e` carries: A[1] to the west, A[-2] to the east. */
  function SentCell<T>(a: seq<T>, e: End): T
    requires |a| >= 3
  {
    match e
    case WestEnd => a[1]
    case EastEnd => a[|a| - 2]
  }

  /** The ghost cell a receive on side `e` writes: A[0] or A[-1]. */
  function GhostIndex(len: nat, e: End): nat
    requires len >= 1
  {
    match e
    case WestEnd => 0
    case EastEnd => len - 1
  }

  /** Position of the send toward `e` in the posting order. */
  function SendIndex(e: End): nat
  {
    match e
    case WestEnd => 0
    case EastEnd => 1
  }

  /** The sends of one round in posting order. */
  function Sends(nb: Neighbors1D): seq<Send<End>>
  {
    [Send(nb.nw, 3, WestEnd), Send(nb.ne, 2, EastEnd)]
  }

  /** The receives of one round in posting order. */
  function Recvs(nb: Neighbors1D): seq<Recv<End>>
  {
    [Recv(nb.nw, 2, WestEnd), Recv(nb.ne, 3, EastEnd)]
  }

  /** Tag pairing, receive side: a receive from a rank is served by exactly
      one of that rank's sends, the one toward the opposite end. */
  lemma RecvMatched(rank: nat, size: nat, k: nat)
    requires rank < size && k < 2
    requires Recvs(NeighborsOf1D(rank, size))[k].source.Rank?
    ensures var rv := Recvs(NeighborsOf1D(rank, size))[k];
            0 <= rv.source.r < size &&
            var sends := Sends(NeighborsOf1D(rv.source.r, size));
            && (forall j :: 0 <= j < |sends| ==> (Matches(sends[j], rank, rv.tag) <==> j == SendIndex(Flip(rv.side))))
            && sends[SendIndex(Flip(rv.side))].side == Flip(rv.side)
  {
  }

  /** Tag pairing, send side: a send to a rank is taken by exactly one
      receive posted there, the one on the opposite end, with the same source
      and tag. */
  lemma SendMatched(rank: nat, size: nat, j: nat)
    requires rank < size && j < 2
    requires Sends(NeighborsOf1D(rank, size))[j].dest.Rank?
    ensures var sd := Sends(NeighborsOf1D(rank, size))[j];
            0 <= sd.dest.r < size &&
            var recvs := Recvs(NeighborsOf1D(sd.dest.r, size));
            forall k :: 0 <= k < |recvs| ==>
              (recvs[k].source == Rank(rank) && recvs[k].tag == sd.tag <==> k == SendIndex(Flip(sd.side)))
  {
  }

  /** The cell law of one round: a ghost cell facing a neighbour holds that
      neighbour's boundary-adjacent interior cell (A[0] = west.A[lR],
      A[lR+1] = east.A[1]); all other cells keep their values. */
  function HaloCell<T>(bufs: seq<seq<T>>, l: nat, r: nat, i: nat): T
    requires Shaped(bufs, l) && l >= 1 && r < |bufs| && i < l + 2
  {
    if i == 0 && r > 0 then bufs[r - 1][l]
    else if i == l + 1 && r + 1 < |bufs| then bufs[r + 1][1]
    else bufs[r][i]
  }

  /** All buffers after one round, by the cell law. */
  function Exchanged<T>(bufs: seq<seq<T>>, l: nat): (res: seq<seq<T>>)
    requires Shaped(bufs, l) && l >= 1
    ensures |res| == |bufs| && Shaped(res, l)
  {
    seq(|bufs|, r requires 0 <= r < |bufs| =>
      seq(l + 2, i requires 0 <= i < l + 2 => HaloCell(bufs, l, r, i)))
  }

  /** Completion of the k-th receive of rank `r`: the matching send is looked
      up among those its source posted, and the cell it carries is written
      into the ghost cell; a receive from PROC_NULL completes at once and
      writes nothing. */
  method Receive<T>(cur: seq<seq<T>>, l: nat, r: nat, k: nat, a: seq<T>) returns (a': seq<T>)
    requires Shaped(cur, l) && l >= 1 && r < |cur| && k < 2 && |a| == l + 2
    ensures var rv := Recvs(NeighborsOf1D(r, |cur|))[k];
            a' == if rv.source.Rank? && 0 <= rv.source.r < |cur|
                  then a[GhostIndex(l + 2, rv.side) := SentCell(cur[rv.source.r], Flip(rv.side))]
                  else a
  {
    var rv := Recvs(NeighborsOf1D(r, |cur|))[k];
    a' := a;
    if rv.source.Rank? {
      RecvMatched(r, |cur|, k);
      var s := rv.source.r;
      var sends := Sends(NeighborsOf1D(s, |cur|));
      var j := FindSend(sends, r, rv.tag);
      a' := a[GhostIndex(l + 2, rv.side) := SentCell(cur[s], sends[j].side)];
    }
  }

  /** One exchange round over all ranks: `Irecv(A[0], nw, 2)` and
      `Irecv(A[-1], ne, 3)` complete at every rank, each served by the
      matching send of the neighbour. */
  method ExchangeRound<T>(bufs: seq<seq<T>>, l: nat) returns (res: seq<seq<T>>)
    requires Shaped(bufs, l) && l >= 1
    ensures res == Exchanged(bufs, l)
  {
    var size := |bufs|;
    res := bufs;
    for r := 0 to size
      invariant |res| == size && Shaped(res, l)
      invariant forall q :: 0 <= q < r ==> res[q] == Exchanged(bufs, l)[q]
      invariant forall q :: r <= q < size ==> res[q] == bufs[q]
    {
      InteriorKept(bufs, l);
      var a := res[r];
      a := Receive(res, l, r, 0, a);
      a := Receive(res, l, r, 1, a);
      assert a == Exchanged(bufs, l)[r] by {
        forall i | 0 <= i < l + 2
          ensures a[i] == Exchanged(bufs, l)[r][i]
        {
        }
      }
      res := res[r := a];
    }
  }

  /** The cell law in terms of the neighbour table: the west ghost holds the
      west neighbour's last interior cell, the east ghost the east
      neighbour's first, a ghost facing PROC_NULL keeps its value, and no
      interior cell changes. */
  lemma ExchangeCells<T>(bufs: seq<seq<T>>, l: nat, r: nat)
    requires Shaped(bufs, l) && l >= 1 && r < |bufs|
    ensures var nb, ex := NeighborsOf1D(r, |bufs|), Exchanged(bufs, l)[r];
            && (nb.nw.Rank? ==> 0 <= nb.nw.r < |bufs| && ex[0] == bufs[nb.nw.r][l])
            && (nb.nw.ProcNull? ==> ex[0] == bufs[r][0])
            && (nb.ne.Rank? ==> 0 <= nb.ne.r < |bufs| && ex[l + 1] == bufs[nb.ne.r][1])
            && (nb.ne.ProcNull? ==> ex[l + 1] == bufs[r][l + 1])
            && ex[1..l + 1] == bufs[r][1..l + 1]
  {
    var ex := Exchanged(bufs, l)[r];
    assert ex[0] == HaloCell(bufs, l, r, 0) && ex[l + 1] == HaloCell(bufs, l, r, l + 1);
    var mid, mid0 := ex[1..l + 1], bufs[r][1..l + 1];
    forall k | 0 <= k < l
      ensures mid[k] == mid0[k]
    {
      assert ex[k + 1] == HaloCell(bufs, l, r, k + 1);
    }
    assert mid == mid0;
  }

  /** A round changes ghost cells only. */
  lemma InteriorKept<T>(bufs: seq<seq<T>>, l: nat)
    requires Shaped(bufs, l) && l >= 1
    ensures forall r, i :: 0 <= r < |bufs| && 1 <= i <= l ==> Exchanged(bufs, l)[r][i] == bufs[r][i]
  {
  }

  /** NumPy's elementwise application of a three-operand expression. */
  function Map3<T>(f: (T, T, T) -> T, x: seq<T>, y: seq<T>, z: seq<T>): (r: seq<T>)
    requires |x| == |y| == |z|
    ensures |r| == |x| && forall k :: 0 <= k < |x| ==> r[k] == f(x[k], y[k], z[k])
  {
    seq(|x|, k requires 0 <= k < |x| => f(x[k], y[k], z[k]))
  }

  /** One sweep `B[1+woff:-1-eoff] = f(A[woff:-2-eoff], A[1+woff:-1-eoff],
      A[2+woff:-eoff])`; f stands for the stencil arithmetic. An empty write
      range leaves B as it is. With woff = eoff = 0 this is the
      shared-memory sweep `B[1:-1] = f(A[:-2], A[1:-1], A[2:])`. */
  function Sweep<T>(a: seq<T>, b: seq<T>, woff: nat, eoff: nat, f: (T, T, T) -> T): (r: seq<T>)
    requires |a| == |b| && woff <= 1 && eoff <= 1
    ensures |r| == |b|
    ensures forall i :: 0 <= i < |b| ==>
              r[i] == if 1 + woff <= i < |b| - 1 - eoff then f(a[i - 1], a[i], a[i + 1]) else b[i]
  {
    var w := WriteSpan(|b|, woff, eoff);
    if w.Length() == 0 then b
    else
      var r0, r1, r2 := ReadSpan(|a|, woff, eoff, 0), ReadSpan(|a|, woff, eoff, 1), ReadSpan(|a|, woff, eoff, 2);
      b[..w.lo] + Map3(f, a[r0.lo..r0.hi], a[r1.lo..r1.hi], a[r2.lo..r2.hi]) + b[w.hi..]
  }

  /** An edge side never reads its ghost cell: whatever that cell holds, the
      sweep gives the same result. */
  lemma SweepIgnoresEdgeGhosts<T>(a: seq<T>, b: seq<T>, woff: nat, eoff: nat, f: (T, T, T) -> T, x: T)
    requires |a| == |b| >= 1 && woff <= 1 && eoff <= 1
    ensures woff == 1 ==> Sweep(a[0 := x], b, woff, eoff, f) == Sweep(a, b, woff, eoff, f)
    ensures eoff == 1 ==> Sweep(a[|a| - 1 := x], b, woff, eoff, f) == Sweep(a, b, woff, eoff, f)
  {
    if woff == 1 {
      var s1, s2 := Sweep(a[0 := x], b, woff, eoff, f), Sweep(a, b, woff, eoff, f);
      assert forall i :: 0 <= i < |b| ==> s1[i] == s2[i];
    }
    if eoff == 1 {
      var s1, s2 := Sweep(a[|a| - 1 := x], b, woff, eoff, f), Sweep(a, b, woff, eoff, f);
      assert forall i :: 0 <= i < |b| ==> s1[i] == s2[i];
    }
  }

  /** The interiors `lA[1:-1]` of all ranks. */
  function Interiors<T>(bufs: seq<seq<T>>, l: nat): (ss: seq<seq<T>>)
    requires Shaped(bufs, l)
    ensures |ss| == |bufs| && Uniform(ss, l)
  {
    seq(|bufs|, r requires 0 <= r < |bufs| => bufs[r][1..l + 1])
  }

  /** Rank 0's `comm.Gather(tA, A)` of the interiors, in rank order. */
  function Gathered<T>(bufs: seq<seq<T>>, l: nat): (g: seq<T>)
    requires Shaped(bufs, l)
    ensures |g| == |bufs| * l
  {
    FlattenLength(Interiors(bufs, l), l);
    Flatten(Interiors(bufs, l))
  }

  /** `comm.Gather(tA, A)` into rank 0's `np.empty((NR,))`: the receive
      buffer is split into one equal count per rank, so the gather is
      defined only when the ranks' interiors fill the NR cells exactly. */
  function GatherInto<T>(bufs: seq<seq<T>>, l: nat, nr: nat): (r: Option<seq<T>>)
    requires Shaped(bufs, l)
    ensures r.Some? <==> |bufs| * l == nr
    ensures r.Some? ==> |r.value| == nr && r.value == Gathered(bufs, l)
  {
    if |bufs| * l == nr then Some(Gathered(bufs, l)) else None
  }

  /** With `lR = NR // size`, the gather into NR cells is defined exactly
      when `size` divides NR. */
  lemma GatherNeedsExactBlocks<T>(bufs: seq<seq<T>>, nr: nat)
    requires |bufs| > 0 && Shaped(bufs, BlockSize(nr, |bufs|))
    ensures GatherInto(bufs, BlockSize(nr, |bufs|), nr).Some? <==> nr % |bufs| == 0
  {
    var l := BlockSize(nr, |bufs|);
    assert |bufs| * l == l * |bufs|;
  }

  /** Interior cell i + 1 of rank r lands at global index l2g(i, r, lR). */
  lemma GatheredAt<T>(bufs: seq<seq<T>>, l: nat, r: nat, i: nat)
    requires Shaped(bufs, l) && r < |bufs| && i < l
    ensures L2G(i, r, l) < |bufs| * l
    ensures Gathered(bufs, l)[L2G(i, r, l)] == bufs[r][i + 1]
  {
    FlattenAt(Interiors(bufs, l), l, r, i);
  }

  /** A round leaves the gathered interiors as they are. */
  lemma ExchangeKeepsGathered<T>(bufs: seq<seq<T>>, l: nat)
    requires Shaped(bufs, l) && l >= 1
    ensures Gathered(Exchanged(bufs, l), l) == Gathered(bufs, l)
  {
    InteriorKept(bufs, l);
    assert Interiors(Exchanged(bufs, l), l) == Interiors(bufs, l) by {
      forall r | 0 <= r < |bufs|
        ensures Interiors(Exchanged(bufs, l), l)[r] == Interiors(bufs, l)[r]
      {
        forall i | 0 <= i < l
          ensures Interiors(Exchanged(bufs, l), l)[r][i] == Interiors(bufs, l)[r][i]
        {
          assert Exchanged(bufs, l)[r][i + 1] == bufs[r][i + 1];
        }
      }
    }
  }

  /** Every rank sweeps its own buffers with its own offsets. */
  function LocalSweeps<T>(abufs: seq<seq<T>>, bbufs: seq<seq<T>>, l: nat, f: (T, T, T) -> T): (res: seq<seq<T>>)
    requires Shaped(abufs, l) && Shaped(bbufs, l) && |abufs| == |bbufs|
    ensures |res| == |bbufs| && Shaped(res, l)
  {
    seq(|bbufs|, r requires 0 <= r < |bbufs| =>
      var o := OffsetsOf1D(NeighborsOf1D(r, |bbufs|));
      Sweep(abufs[r], bbufs[r], o.woff, o.eoff, f))
  }

  /** Local index i + 1 of rank r after its sweep: the stencil of its
      neighbours where the shifted write range covers it, B's old cell
      elsewhere. */
  lemma LocalSweepAt<T>(abufs: seq<seq<T>>, bbufs: seq<seq<T>>, l: nat, f: (T, T, T) -> T, r: nat, i: nat)
    requires Shaped(abufs, l) && Shaped(bbufs, l) && |abufs| == |bbufs| && r < |abufs| && i < l
    ensures var o := OffsetsOf1D(NeighborsOf1D(r, |bbufs|));
            LocalSweeps(abufs, bbufs, l, f)[r][i + 1]
            == if 1 + o.woff <= i + 1 < l + 1 - o.eoff then f(abufs[r][i], abufs[r][i + 1], abufs[r][i + 2])
               else bbufs[r][i + 1]
  {
    var o := OffsetsOf1D(NeighborsOf1D(r, |bbufs|));
    assert LocalSweeps(abufs, bbufs, l, f)[r] == Sweep(abufs[r], bbufs[r], o.woff, o.eoff, f);
  }

  /** Local index i + 1 of rank r is written by its sweep exactly when global
      index l2g(i, r, lR) is written by the shared-memory sweep. */
  lemma WrittenIffGlobal(r: nat, size: nat, l: nat, i: nat)
    requires r < size && i < l
    ensures var o := OffsetsOf1D(NeighborsOf1D(r, size)); var g := L2G(i, r, l);
            (1 + o.woff <= i + 1 < l + 1 - o.eoff) <==> (1 <= g < size * l - 1)
  {
    MulMonotone(r + 1, size, l);
    if 0 < r {
      MulMonotone(1, r, l);
    }
    if r + 1 < size {
      MulMonotone(r + 2, size, l);
    }
  }

  /** After a round, the cell left of local index i + 1 is the gathered cell
      left of its global index, whenever that global index is not the first. */
  lemma WestOperand<T>(abufs: seq<seq<T>>, l: nat, r: nat, i: nat)
    requires Shaped(abufs, l) && l >= 1 && r < |abufs| && i < l && 1 <= L2G(i, r, l)
    ensures L2G(i, r, l) < |abufs| * l
    ensures Exchanged(abufs, l)[r][i] == Gathered(abufs, l)[L2G(i, r, l) - 1]
  {
    var ex := Exchanged(abufs, l);
    GatheredAt(abufs, l, r, i);
    if i > 0 {
      GatheredAt(abufs, l, r, i - 1);
      assert ex[r][i] == HaloCell(abufs, l, r, i) == abufs[r][i];
    } else {
      if r == 0 {
        assert false;
      }
      GatheredAt(abufs, l, r - 1, l - 1);
      assert L2G(l - 1, r - 1, l) == L2G(i, r, l) - 1;
      assert ex[r][0] == HaloCell(abufs, l, r, 0) == abufs[r - 1][l];
    }
  }

  /** After a round, the cell right of local index i + 1 is the gathered cell
      right of its global index, whenever that global index is not the last. */
  lemma EastOperand<T>(abufs: seq<seq<T>>, l: nat, r: nat, i: nat)
    requires Shaped(abufs, l) && l >= 1 && r < |abufs| && i < l && L2G(i, r, l) < |abufs| * l - 1
    ensures Exchanged(abufs, l)[r][i + 2] == Gathered(abufs, l)[L2G(i, r, l) + 1]
  {
    var ex := Exchanged(abufs, l);
    if i + 1 < l {
      GatheredAt(abufs, l, r, i + 1);
      assert ex[r][i + 2] == HaloCell(abufs, l, r, i + 2) == abufs[r][i + 2];
    } else {
      if r + 1 >= |abufs| {
        MulMonotone(|abufs|, r + 1, l);
        assert false;
      }
      GatheredAt(abufs, l, r + 1, 0);
      assert L2G(0, r + 1, l) == L2G(i, r, l) + 1;
      assert ex[r][i + 2] == HaloCell(abufs, l, r, l + 1) == abufs[r + 1][1];
    }
  }

  /** A cell whose global index is neither the first nor the last: after a
      round, the sweep of its rank applies the stencil to the gathered cells
      around its global index. */
  lemma InnerCellAt<T>(abufs: seq<seq<T>>, bbufs: seq<seq<T>>, l: nat, f: (T, T, T) -> T, r: nat, i: nat)
    requires Shaped(abufs, l) && Shaped(bbufs, l) && |abufs| == |bbufs| && l >= 1 && r < |abufs| && i < l
    requires 1 <= L2G(i, r, l) < |abufs| * l - 1
    ensures var ga, g := Gathered(abufs, l), L2G(i, r, l);
            LocalSweeps(Exchanged(abufs, l), bbufs, l, f)[r][i + 1] == f(ga[g - 1], ga[g], ga[g + 1])
  {
    var ex, ga, g := Exchanged(abufs, l), Gathered(abufs, l), L2G(i, r, l);
    var o := OffsetsOf1D(NeighborsOf1D(r, |bbufs|));
    WrittenIffGlobal(r, |bbufs|, l, i);
    assert 1 + o.woff <= i + 1 < l + 1 - o.eoff;
    LocalSweepAt(ex, bbufs, l, f, r, i);
    var x := LocalSweeps(ex, bbufs, l, f)[r][i + 1];
    assert x == f(ex[r][i], ex[r][i + 1], ex[r][i + 2]);
    GatheredAt(abufs, l, r, i);
    assert ex[r][i + 1] == HaloCell(abufs, l, r, i + 1) == abufs[r][i + 1] == ga[g];
    WestOperand(abufs, l, r, i);
    EastOperand(abufs, l, r, i);
    assert ex[r][i] == ga[g - 1] && ex[r][i + 2] == ga[g + 1];
  }

  /** A cell at the first or last global index keeps B's old value. */
  lemma OuterCellAt<T>(abufs: seq<seq<T>>, bbufs: seq<seq<T>>, l: nat, f: (T, T, T) -> T, r: nat, i: nat)
    requires Shaped(abufs, l) && Shaped(bbufs, l) && |abufs| == |bbufs| && l >= 1 && r < |abufs| && i < l
    requires !(1 <= L2G(i, r, l) < |abufs| * l - 1)
    ensures L2G(i, r, l) < |bbufs| * l
    ensures LocalSweeps(Exchanged(abufs, l), bbufs, l, f)[r][i + 1] == Gathered(bbufs, l)[L2G(i, r, l)]
  {
    GatheredAt(bbufs, l, r, i);
    LocalSweepAt(Exchanged(abufs, l), bbufs, l, f, r, i);
    WrittenIffGlobal(r, |abufs|, l, i);
  }

  /** The shared-memory sweep of the whole array, written cell by cell. */
  function CellSweep<T>(a: seq<T>, b: seq<T>, f: (T, T, T) -> T): (r: seq<T>)
    requires |a| == |b|
    ensures |r| == |b|
  {
    seq(|b|, g requires 0 <= g < |b| => if 1 <= g < |b| - 1 then f(a[g - 1], a[g], a[g + 1]) else b[g])
  }

  /** A cell of the cellwise sweep: the stencil inside, B's cell at both ends. */
  lemma CellSweepAt<T>(a: seq<T>, b: seq<T>, f: (T, T, T) -> T, g: nat)
    requires |a| == |b| && g < |b|
    ensures CellSweep(a, b, f)[g] == if 1 <= g < |b| - 1 then f(a[g - 1], a[g], a[g + 1]) else b[g]
  {
  }

  /** One cell of the cellwise sweep is the same cell of the slice program. */
  lemma CellSweepCell<T>(a: seq<T>, b: seq<T>, f: (T, T, T) -> T, g: nat)
    requires |a| == |b| && g < |b|
    ensures CellSweep(a, b, f)[g] == Sweep(a, b, 0, 0, f)[g]
  {
    var s := Sweep(a, b, 0, 0, f);
    if 1 <= g < |b| - 1 {
      assert s[g] == f(a[g - 1], a[g], a[g + 1]);
    } else {
      assert s[g] == b[g];
    }
  }

  /** The cellwise sweep is the slice program without offsets. */
  lemma CellSweepIsSweep<T>(a: seq<T>, b: seq<T>, f: (T, T, T) -> T)
    requires |a| == |b|
    ensures CellSweep(a, b, f) == Sweep(a, b, 0, 0, f)
  {
    var c, s := CellSweep(a, b, f), Sweep(a, b, 0, 0, f);
    forall g | 0 <= g < |b|
      ensures c[g] == s[g]
    {
      CellSweepCell(a, b, f, g);
    }
    assert c == s;
  }

  /** After a round, local cell i + 1 of rank r's sweep is the cell of the
      shared-memory sweep at global index l2g(i, r, lR). */
  lemma SweptCellIsGlobal<T>(abufs: seq<seq<T>>, bbufs: seq<seq<T>>, l: nat, f: (T, T, T) -> T, r: nat, i: nat)
    requires Shaped(abufs, l) && Shaped(bbufs, l) && |abufs| == |bbufs| && l >= 1 && r < |abufs| && i < l
    ensures L2G(i, r, l) < |abufs| * l
    ensures LocalSweeps(Exchanged(abufs, l), bbufs, l, f)[r][i + 1]
            == CellSweep(Gathered(abufs, l), Gathered(bbufs, l), f)[L2G(i, r, l)]
  {
    var g := L2G(i, r, l);
    GatheredAt(bbufs, l, r, i);
    CellSweepAt(Gathered(abufs, l), Gathered(bbufs, l), f, g);
    if 1 <= g < |abufs| * l - 1 {
      InnerCellAt(abufs, bbufs, l, f, r, i);
    } else {
      OuterCellAt(abufs, bbufs, l, f, r, i);
    }
  }

  /** One global cell of the distributed sweep equals the same cell of the
      shared-memory sweep over the gathered arrays. */
  lemma DistributedSweepAt<T>(abufs: seq<seq<T>>, bbufs: seq<seq<T>>, l: nat, f: (T, T, T) -> T, r: nat, i: nat)
    requires Shaped(abufs, l) && Shaped(bbufs, l) && |abufs| == |bbufs| && l >= 1 && r < |abufs| && i < l
    ensures L2G(i, r, l) < |abufs| * l
    ensures Gathered(LocalSweeps(Exchanged(abufs, l), bbufs, l, f), l)[L2G(i, r, l)]
            == CellSweep(Gathered(abufs, l), Gathered(bbufs, l), f)[L2G(i, r, l)]
  {
    GatheredAt(LocalSweeps(Exchanged(abufs, l), bbufs, l, f), l, r, i);
    SweptCellIsGlobal(abufs, bbufs, l, f, r, i);
  }

  /** The distributed sweep, gathered, is the shared-memory sweep
      `B[1:-1] = f(A[:-2], A[1:-1], A[2:])` of the gathered arrays. */
  lemma DistributedSweep<T>(abufs: seq<seq<T>>, bbufs: seq<seq<T>>, l: nat, f: (T, T, T) -> T)
    requires Shaped(abufs, l) && Shaped(bbufs, l) && |abufs| == |bbufs| && l >= 1
    ensures Gathered(LocalSweeps(Exchanged(abufs, l), bbufs, l, f), l)
            == Sweep(Gathered(abufs, l), Gathered(bbufs, l), 0, 0, f)
  {
    var lhs := Gathered(LocalSweeps(Exchanged(abufs, l), bbufs, l, f), l);
    var rhs := CellSweep(Gathered(abufs, l), Gathered(bbufs, l), f);
    forall g | 0 <= g < |lhs|
      ensures lhs[g] == rhs[g]
    {
      L2GOnto(g, l, |abufs|);
      DistributedSweepAt(abufs, bbufs, l, f, g / l, g % l);
    }
    assert lhs == rhs;
    CellSweepIsSweep(Gathered(abufs, l), Gathered(bbufs, l), f);
  }

  /** One time step of `jacobi_1d_shmem`: sweep A into B, then B into A. */
  function SharedStep<T>(ab: (seq<T>, seq<T>), f: (T, T, T) -> T): (r: (seq<T>, seq<T>))
    requires |ab.0| == |ab.1|
    ensures |r.0| == |r.1| == |ab.0|
  {
    var b := Sweep(ab.0, ab.1, 0, 0, f);
    (Sweep(b, ab.0, 0, 0, f), b)
  }

  /** `n` time steps of the shared-memory program. */
  function SharedRun<T>(a: seq<T>, b: seq<T>, n: nat, f: (T, T, T) -> T): (r: (seq<T>, seq<T>))
    requires |a| == |b|
    ensures |r.0| == |r.1| == |a|
  {
    if n == 0 then (a, b) else SharedStep(SharedRun(a, b, n - 1, f), f)
  }

  /** Step k + 1 of the shared-memory program follows step k. */
  lemma SharedRunStep<T>(a: seq<T>, b: seq<T>, k: nat, f: (T, T, T) -> T)
    requires |a| == |b|
    ensures SharedRun(a, b, k + 1, f) == SharedStep(SharedRun(a, b, k, f), f)
  {
  }

  /** One iteration of `for t in range(1, TSTEPS)` of `jacobi_1d_distr` on
      all ranks: exchange A, sweep into B, exchange B, sweep into A. The
      exchanges write the ghost cells of A and B in place, so the new B is
      the swept B after its exchange, and the new A is the exchanged A with
      the sweep written into it. Gathered, it is one time step of the
      shared-memory program. */
  method TimeStep<T>(abufs: seq<seq<T>>, bbufs: seq<seq<T>>, l: nat, f: (T, T, T) -> T)
    returns (abufs': seq<seq<T>>, bbufs': seq<seq<T>>)
    requires Shaped(abufs, l) && Shaped(bbufs, l) && |abufs| == |bbufs| && l >= 1
    ensures |abufs'| == |bbufs'| == |abufs| && Shaped(abufs', l) && Shaped(bbufs', l)
    ensures bbufs' == Exchanged(LocalSweeps(Exchanged(abufs, l), bbufs, l, f), l)
    ensures abufs' == LocalSweeps(bbufs', Exchanged(abufs, l), l, f)
    ensures (Gathered(abufs', l), Gathered(bbufs', l)) == SharedStep((Gathered(abufs, l), Gathered(bbufs, l)), f)
  {
    ExchangeKeepsGathered(abufs, l);
    var exA := ExchangeRound(abufs, l);
    DistributedSweep(abufs, bbufs, l, f);
    var b1 := LocalSweeps(exA, bbufs, l, f);
    ExchangeKeepsGathered(b1, l);
    bbufs' := ExchangeRound(b1, l);
    DistributedSweep(b1, exA, l, f);
    abufs' := LocalSweeps(bbufs', exA, l, f);
  }

  /** `jacobi_1d_distr` on all ranks at once, `k` counting the iterations
      of `for t in range(1, TSTEPS)` done. Gathered, the result is the
      shared-memory program's result on the gathered input. */
  method Jacobi1D<T>(abufs: seq<seq<T>>, bbufs: seq<seq<T>>, l: nat, tsteps: int, f: (T, T, T) -> T)
    returns (abufs': seq<seq<T>>, bbufs': seq<seq<T>>)
    requires Shaped(abufs, l) && Shaped(bbufs, l) && |abufs| == |bbufs| && l >= 1
    ensures |abufs'| == |bbufs'| == |abufs| && Shaped(abufs', l) && Shaped(bbufs', l)
    ensures (Gathered(abufs', l), Gathered(bbufs', l))
            == SharedRun(Gathered(abufs, l), Gathered(bbufs, l), Iterations(1, tsteps), f)
  {
    abufs', bbufs' := abufs, bbufs;
    var k := 0;
    while k < Iterations(1, tsteps)
      invariant k <= Iterations(1, tsteps)
      invariant |abufs'| == |bbufs'| == |abufs| && Shaped(abufs', l) && Shaped(bbufs', l)
      invariant (Gathered(abufs', l), Gathered(bbufs', l)) == SharedRun(Gathered(abufs, l), Gathered(bbufs, l), k, f)
      decreases Iterations(1, tsteps) - k
    {
      SharedRunStep(Gathered(abufs, l), Gathered(bbufs, l), k, f);
      abufs', bbufs' := TimeStep(abufs', bbufs', l, f);
      k := k + 1;
    }
  }
}
