// The index ranges of the offset-shifted stencil sweeps. On every axis a
// sweep writes `1+off_lo : -1-off_hi` of a ghost-padded buffer and reads the
// same range shifted by -1, 0 and +1 (`off_lo : -2-off_hi`,
// `1+off_lo : -1-off_hi`, `2+off_lo : -off_hi`), where the offset on a side
// is 1 when that side faces PROC_NULL.
module Spans {

  /** The sweep ranges of the stencil as Python slices start:stop, with a
      stop counted from the end of the buffer already resolved. */
  datatype Span = Span(lo: int, hi: int)
  {
    function Length(): nat
    {
      if hi <= lo then 0 else hi - lo
    }
  }

  /** `B[1+woff:-1-eoff]` in a buffer of length `len`. */
  function WriteSpan(len: nat, woff: nat, eoff: nat): Span
  {
    Span(1 + woff, len - 1 - eoff)
  }

  /** The k-th operand `A[k+woff : k-2-eoff]` (k = 0, 1, 2), whose stop,
      written relative to the end of the buffer, is len - 2 + k - eoff. */
  function ReadSpan(len: nat, woff: nat, eoff: nat, k: nat): Span
  {
    Span(k + woff, len - 2 + k - eoff)
  }

  /** The read ranges are the write range shifted by -1, 0 and +1, they stay
      inside the buffer, and an edge side never reads its ghost cell. */
  lemma SpansInBounds(len: nat, woff: nat, eoff: nat, k: nat)
    requires len >= 2 && woff <= 1 && eoff <= 1 && k <= 2
    ensures var w, rd := WriteSpan(len, woff, eoff), ReadSpan(len, woff, eoff, k);
            && rd == Span(w.lo + k - 1, w.hi + k - 1)
            && 0 <= rd.lo && rd.hi <= len && rd.Length() == w.Length()
            && 1 <= w.lo && w.hi <= len - 1
            && (woff == 1 ==> rd.lo >= 1)
            && (eoff == 1 ==> rd.hi <= len - 1)
  {
  }
}
