/** Placement of the user data and of every compressed frame on 256-byte boundaries. */
module Align {
  import opened Bytes

  /** ZUS_ALIGNMENT. */
  const ALIGNMENT: nat := 256

  /** The smallest multiple of ALIGNMENT that is at least p: the rounding the layout
      description asks for. */
  function AlignUp(p: nat): (r: nat)
    ensures r % ALIGNMENT == 0
    ensures p <= r < p + ALIGNMENT
  {
    (p + ALIGNMENT - 1) / ALIGNMENT * ALIGNMENT
  }

  /** No multiple of ALIGNMENT at or above p lies below AlignUp(p). */
  lemma AlignUpIsLeast(p: nat, m: nat)
    requires m % ALIGNMENT == 0 && p <= m
    ensures AlignUp(p) <= m
  {
    // Follows from AlignUp's bounds: a multiple of 256 below AlignUp(p) lies below p.
  }

  /** No padding is inserted at an offset that is already on a boundary, and only there. */
  lemma AlignUpFixedPoints(p: nat)
    ensures AlignUp(p) == p <==> p % ALIGNMENT == 0
  {
    if p % ALIGNMENT == 0 {
      AlignUpIsLeast(p, p);
    }
  }

  /** Rounding twice is rounding once. */
  lemma AlignUpIdempotent(p: nat)
    ensures AlignUp(AlignUp(p)) == AlignUp(p)
  {
    AlignUpFixedPoints(AlignUp(p));
  }

  /** Rounding keeps the order of offsets. */
  lemma AlignUpMonotonic(p: nat, q: nat)
    requires p <= q
    ensures AlignUp(p) <= AlignUp(q)
  {
    AlignUpIsLeast(p, AlignUp(q));
  }

  /** Bit 8 of a non-negative x, in place: x & 256. */
  function AndAlignment(x: nat): (r: nat)
    ensures r == 0 || r == ALIGNMENT
  {
    if (x / ALIGNMENT) % 2 == 1 then ALIGNMENT else 0
  }

  /** ZUS_ALIGN(p) as written: the subtraction binds tighter than the `&`, so the macro
      computes p + ((256 - p) & 256) in uintptr_t arithmetic, wrapping at 2^64. */
  function AlignMacro(p: u64): (r: u64)
    ensures r == p || r == (p + ALIGNMENT) % 0x1_0000_0000_0000_0000
  {
    (p + AndAlignment((ALIGNMENT - p) % 0x1_0000_0000_0000_0000)) % 0x1_0000_0000_0000_0000
  }

  /** The macro pads an offset that is already aligned: it moves 0 to 256. */
  lemma AlignMacroOverPadsZero()
    ensures AlignMacro(0) == 256 && AlignUp(0) == 0
  {
  }

  /** The macro leaves an unaligned offset where it is: it maps 1 to 1, off every boundary. */
  lemma AlignMacroMisalignsOne()
    ensures AlignMacro(1) == 1 && AlignMacro(1) % ALIGNMENT != 0 && AlignUp(1) == 256
  {
  }
}
