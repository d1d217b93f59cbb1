/** The instructions the modelled code generators emit, kept abstract:
    addresses are 64-bit values, and each op records the operands that
    matter to the properties stated about the emitters. */
module Builder {
  import opened Basics

  /** The flags a memory copy carries (`MemFlags`). */
  datatype MemFlags = MemFlags(volatile: bool, nontemporal: bool, unaligned: bool)

  const EMPTY_FLAGS: MemFlags := MemFlags(false, false, false)

  /** `u64::MAX`, the all-ones mask. */
  const U64_MAX: bv64 := 0xFFFF_FFFF_FFFF_FFFF

  datatype Op =
    | Memcpy(dst: bv64, dstAlign: nat, src: bv64, srcAlign: nat, len: u64, flags: MemFlags)
    /** A marker the later LLVM pass uses to find field projections. */
    | MarkFieldProjection(addr: bv64, index: nat)
    /** A 64-bit load with 8-byte alignment. */
    | Load64(addr: bv64)
    /** A one-byte store with 1-byte alignment. */
    | Store8(addr: bv64, value: bv8)
}
