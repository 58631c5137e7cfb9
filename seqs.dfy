// Sequence helpers shared by the decomposition model: an Option type and the
// concatenation of equally long pieces, which is how NumPy's C-order reshape
// merges two adjacent axes and how a rank-ordered gather lays out its blocks.
module Seqs {

  datatype Option<T> = None | Some(value: T)

  /** The pieces of `ss`, concatenated in order. */
  function Flatten<T>(ss: seq<seq<T>>): seq<T>
  {
    if ss == [] then [] else ss[0] + Flatten(ss[1..])
  }

  /** Every piece of `ss` has length `b`. */
  predicate Uniform<T>(ss: seq<seq<T>>, b: nat)
  {
    forall i :: 0 <= i < |ss| ==> |ss[i]| == b
  }

  /** The number of iterations of `for t in range(lo, hi)`. */
  function Iterations(lo: int, hi: int): nat
  {
    if hi <= lo then 0 else hi - lo
  }

  /** a * b grows with a when b is fixed and non-negative. */
  lemma MulMonotone(a: int, c: int, b: nat)
    requires a <= c
    ensures a * b <= c * b
  {
    var d := c - a;
    assert c * b == a * b + d * b;
  }

  /** The concatenation of uniform pieces has the product length. */
  lemma {:induction false} FlattenLength<T>(ss: seq<seq<T>>, b: nat)
    requires Uniform(ss, b)
    ensures |Flatten(ss)| == |ss| * b
  {
    if ss != [] {
      FlattenLength(ss[1..], b);
      assert |ss| * b == b + (|ss| - 1) * b;
    }
  }

  /** Element `i` of piece `p` sits at offset `p * b + i` of the concatenation. */
  lemma {:induction false} FlattenAt<T>(ss: seq<seq<T>>, b: nat, p: nat, i: nat)
    requires Uniform(ss, b) && p < |ss| && i < b
    ensures |Flatten(ss)| == |ss| * b
    ensures p * b + i < |ss| * b
    ensures Flatten(ss)[p * b + i] == ss[p][i]
  {
    FlattenLength(ss, b);
    MulMonotone(p + 1, |ss|, b);
    if p > 0 {
      FlattenAt(ss[1..], b, p - 1, i);
      assert (p - 1) * b + i == p * b + i - b;
    }
  }

  /** Concatenating one more piece appends it. */
  lemma {:induction false} FlattenSnoc<T>(ss: seq<seq<T>>, last: seq<T>)
    ensures Flatten(ss + [last]) == Flatten(ss) + last
  {
    if ss == [] {
      assert [last][1..] == [];
    } else {
      assert (ss + [last])[1..] == ss[1..] + [last];
      FlattenSnoc(ss[1..], last);
    }
  }
}
