/** The heap segment layout the shadow copies of `CopyNonOverlapping` rely
    on: an address splits into a segment (the high bits, 32 MiB aligned)
    and an offset within the segment (the low 25 bits). */
module Segments {

  const SEGMENT_MASK: bv64 := 0xFFFF_FFFF_FE00_0000
  const OFFSET_MASK: bv64 := 0x1FF_FFFF

  /** The offset bits of `a`. */
  function Offset(a: bv64): (o: bv64)
    ensures o & SEGMENT_MASK == 0
    ensures o <= OFFSET_MASK
  {
    a & OFFSET_MASK
  }

  /** The segment bits of `a`: together with the offset they rebuild the
      address, and the two never share a bit. */
  function Segment(a: bv64): (s: bv64)
    ensures s | Offset(a) == a
    ensures s & Offset(a) == 0
    ensures s & OFFSET_MASK == 0
  {
    a & SEGMENT_MASK
  }

  /** The two masks partition the 64 bits. */
  lemma MasksComplementary()
    ensures SEGMENT_MASK & OFFSET_MASK == 0
    ensures SEGMENT_MASK | OFFSET_MASK == 0xFFFF_FFFF_FFFF_FFFF
  {
  }

  /** Two addresses with the same segment and offset are the same address. */
  lemma SegmentOffsetDetermineAddress(a: bv64, b: bv64)
    requires Segment(a) == Segment(b) && Offset(a) == Offset(b)
    ensures a == b
  {
  }

  /** OR-ing an offset onto a base without offset bits is addition. */
  lemma OrOffsetIsAdd(base: bv64, a: bv64)
    requires base & OFFSET_MASK == 0
    ensures base | Offset(a) == base + Offset(a)
  {
  }

  /** OR-ing an offset onto a base keeps the base's segment bits and
      yields exactly that offset. */
  lemma OrOffsetSplits(base: bv64, a: bv64)
    requires base & OFFSET_MASK == 0
    ensures Segment(base | Offset(a)) == base
    ensures Offset(base | Offset(a)) == Offset(a)
  {
  }
}
