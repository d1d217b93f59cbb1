/** Shadow addresses and protected copies at code-generation time: the live
    shadow translation (currently the identity), the four-way dispatch of
    `copy_smart_pointers`, and the disabled stack/heap resolver written as a
    pure function over a tagged intermediate. */
module ShadowCopy {
  import opened Basics
  import opened Types
  import opened Builder
  import opened Segments

  /** A translated address together with the ops emitted to compute it. */
  datatype Shadowed = Shadowed(addr: bv64, ops: seq<Op>)

  /** The live `get_smart_pointer_shadow`: the address is masked with
      `u64::MAX` and marked as a field projection for the later LLVM pass.
      The marked value is taken to be the masked address. */
  function GetSmartPointerShadow(val: bv64): (r: Shadowed)
    ensures r.addr == val
    ensures r.ops == [MarkFieldProjection(val, 0)]
  {
    var addrMasked := val & U64_MAX;
    Shadowed(addrMasked, [MarkFieldProjection(addrMasked, 0)])
  }

  /** An operand is translated through the shadow exactly when its own type
      contains a special type. */
  function TranslateIfSpecial(addr: bv64, special: bool): Shadowed {
    if special then GetSmartPointerShadow(addr) else Shadowed(addr, [])
  }

  /** `copy_smart_pointers`: one copy of length 1 whose source and
      destination are each translated iff their own type is special, after
      the translations of src then dst; nothing when neither is special. */
  function CopySmartPointers(
    src: bv64, srcTy: Ty, dst: bv64, dstTy: Ty, align: nat, flags: MemFlags,
    containsSpecialTy: Ty -> bool): (r: seq<Op>)
    ensures |r| == 0 <==> !containsSpecialTy(srcTy) && !containsSpecialTy(dstTy)
    ensures |r| > 0 ==>
      var s := TranslateIfSpecial(src, containsSpecialTy(srcTy));
      var d := TranslateIfSpecial(dst, containsSpecialTy(dstTy));
      r == s.ops + d.ops + [Memcpy(d.addr, align, s.addr, align, 1, flags)]
    ensures forall i :: 0 <= i < |r| && r[i].Memcpy? ==>
      r[i].len == 1 && r[i].dstAlign == align && r[i].srcAlign == align && r[i].flags == flags
  {
    if containsSpecialTy(srcTy) && containsSpecialTy(dstTy) then
      var srcShadow := GetSmartPointerShadow(src);
      var dstShadow := GetSmartPointerShadow(dst);
      srcShadow.ops + dstShadow.ops + [Memcpy(dstShadow.addr, align, srcShadow.addr, align, 1, flags)]
    else if containsSpecialTy(srcTy) then
      var srcShadow := GetSmartPointerShadow(src);
      srcShadow.ops + [Memcpy(dst, align, srcShadow.addr, align, 1, flags)]
    else if containsSpecialTy(dstTy) then
      var dstShadow := GetSmartPointerShadow(dst);
      dstShadow.ops + [Memcpy(dstShadow.addr, align, src, align, 1, flags)]
    else
      []
  }

  /** The copy `CopySmartPointers` emits, if any. */
  function EmittedCopy(ops: seq<Op>): Option<Op> {
    if |ops| > 0 && ops[|ops| - 1].Memcpy? then Some(ops[|ops| - 1]) else None
  }

  /** The four cases of the dispatch, each with the operand it leaves
      untranslated: shadow to shadow, shadow to nominal destination, nominal
      source to shadow, and no copy. */
  lemma CopySmartPointersCases(
    src: bv64, srcTy: Ty, dst: bv64, dstTy: Ty, align: nat, flags: MemFlags,
    containsSpecialTy: Ty -> bool)
    ensures
      var r := CopySmartPointers(src, srcTy, dst, dstTy, align, flags, containsSpecialTy);
      var sSrc := containsSpecialTy(srcTy);
      var sDst := containsSpecialTy(dstTy);
      && (sSrc && sDst ==>
            r == [MarkFieldProjection(src, 0), MarkFieldProjection(dst, 0),
                  Memcpy(GetSmartPointerShadow(dst).addr, align, GetSmartPointerShadow(src).addr, align, 1, flags)])
      && (sSrc && !sDst ==>
            r == [MarkFieldProjection(src, 0), Memcpy(dst, align, GetSmartPointerShadow(src).addr, align, 1, flags)])
      && (!sSrc && sDst ==>
            r == [MarkFieldProjection(dst, 0), Memcpy(GetSmartPointerShadow(dst).addr, align, src, align, 1, flags)])
      && (!sSrc && !sDst ==> r == [] && EmittedCopy(r) == None)
  {
  }

  /** Where the disabled resolver sends an address: the current stack
      frame's range, or a heap segment. */
  datatype ShadowSite = Stack | Heap(segment: bv64)

  /** The stack/heap test of the disabled resolver: the address is on the
      stack iff its `stack_mask` bits XOR those of the stack pointer are
      zero; a heap address's segment is `(addr - 1) & segment_mask`. */
  function ClassifyAddress(addr: bv64, sp: bv64, stackMask: bv64, segmentMask: bv64): (r: ShadowSite)
    ensures r.Stack? <==> addr & stackMask == sp & stackMask
  {
    var xored := (sp & stackMask) ^ (addr & stackMask);
    if xored == 0 then Stack else Heap((addr - 1) & segmentMask)
  }

  /** The shadow address the disabled resolver computes for an address at
      a classified site; `table` is the segment table the runtime fills. */
  function ShadowAt(addr: bv64, site: ShadowSite, lowerMask: bv64, table: bv64 -> bv64): bv64 {
    match site
    case Stack => addr & U64_MAX
    case Heap(segment) => table(segment) | (addr & lowerMask)
  }

  /** The disabled resolver's intended result: the identity on the stack;
      on the heap, the segment's base from the table with the address's
      offset bits, which survive whenever the base has none. */
  function ResolveShadow(
    addr: bv64, sp: bv64, stackMask: bv64, segmentMask: bv64, lowerMask: bv64,
    table: bv64 -> bv64): (r: bv64)
    ensures addr & stackMask == sp & stackMask ==> r == addr
    ensures addr & stackMask != sp & stackMask ==>
      r == ShadowAt(addr, Heap((addr - 1) & segmentMask), lowerMask, table)
    ensures addr & stackMask != sp & stackMask && table((addr - 1) & segmentMask) & lowerMask == 0 ==>
      r & lowerMask == addr & lowerMask
  {
    ShadowAt(addr, ClassifyAddress(addr, sp, stackMask, segmentMask), lowerMask, table)
  }

  /** The disabled resolver as its text stands: the heap branch loads the
      segment's base, stores a dummy byte at the computed shadow, and then
      both branches join on the untranslated address. */
  function ResolveShadowAsWritten(
    addr: bv64, sp: bv64, stackMask: bv64, segmentMask: bv64, lowerMask: bv64,
    table: bv64 -> bv64): (r: Shadowed)
    ensures r.addr == addr
    ensures ClassifyAddress(addr, sp, stackMask, segmentMask).Stack? ==> r.ops == []
    ensures ClassifyAddress(addr, sp, stackMask, segmentMask).Heap? ==>
      r.ops == [Load64((addr - 1) & segmentMask),
                Store8(ShadowAt(addr, Heap((addr - 1) & segmentMask), lowerMask, table), 1)]
  {
    var site := ClassifyAddress(addr, sp, stackMask, segmentMask);
    match site
    case Stack =>
      var dummyMask := addr & U64_MAX;
      Shadowed(dummyMask, [])
    case Heap(segment) =>
      var heapShadow := ShadowAt(addr, site, lowerMask, table);
      Shadowed(addr & U64_MAX, [Load64(segment), Store8(heapShadow, 1)])
  }

  /** A heap shadow is the segment's base displaced by the address's
      offset, provided the base has no offset bits; so two addresses of one
      segment get shadows exactly as far apart as their offsets. */
  lemma HeapShadowIsBasePlusOffset(a: bv64, segment: bv64, table: bv64 -> bv64)
    requires table(segment) & OFFSET_MASK == 0
    ensures ShadowAt(a, Heap(segment), OFFSET_MASK, table) == table(segment) + (a & OFFSET_MASK)
  {
  }

  /** The heap shadow is one-to-one: distinct heap addresses, in segments
      `sa` and `sb`, get distinct shadows, given a segment table whose bases
      carry no offset bits and differ between segments. */
  lemma HeapShadowInjective(a: bv64, b: bv64, sa: bv64, sb: bv64, table: bv64 -> bv64)
    requires sa == (a - 1) & SEGMENT_MASK && sb == (b - 1) & SEGMENT_MASK
    requires table(sa) & OFFSET_MASK == 0 && table(sb) & OFFSET_MASK == 0
    requires table(sa) == table(sb) ==> sa == sb
    requires ShadowAt(a, Heap(sa), OFFSET_MASK, table) == ShadowAt(b, Heap(sb), OFFSET_MASK, table)
    ensures a == b
  {
    var ta, tb := table(sa), table(sb);
    assert ta | (a & OFFSET_MASK) == tb | (b & OFFSET_MASK);
    BaseOrOffsetInjective(a, b, sa, sb, ta, tb);
  }

  /** The same, with the two bases looked up. */
  lemma BaseOrOffsetInjective(a: bv64, b: bv64, sa: bv64, sb: bv64, ta: bv64, tb: bv64)
    requires sa == (a - 1) & SEGMENT_MASK && sb == (b - 1) & SEGMENT_MASK
    requires ta & OFFSET_MASK == 0 && tb & OFFSET_MASK == 0
    requires ta == tb ==> sa == sb
    requires ta | (a & OFFSET_MASK) == tb | (b & OFFSET_MASK)
    ensures a == b
  {
    SplitDisjointOr(ta, a & OFFSET_MASK, tb, b & OFFSET_MASK);
    SegmentBeforeAndOffsetDetermineAddress(a, b);
  }

  /** An OR of a base without offset bits and an offset splits back into
      its two parts. */
  lemma SplitDisjointOr(t1: bv64, o1: bv64, t2: bv64, o2: bv64)
    requires t1 & OFFSET_MASK == 0 && t2 & OFFSET_MASK == 0
    requires o1 & SEGMENT_MASK == 0 && o2 & SEGMENT_MASK == 0
    requires t1 | o1 == t2 | o2
    ensures t1 == t2 && o1 == o2
  {
  }

  /** The segment of `a - 1` and the offset of `a` together determine `a`. */
  lemma SegmentBeforeAndOffsetDetermineAddress(a: bv64, b: bv64)
    requires (a - 1) & SEGMENT_MASK == (b - 1) & SEGMENT_MASK
    requires a & OFFSET_MASK == b & OFFSET_MASK
    ensures a == b
  {
  }

  /** Off the stack, an address is sent to the segment of the byte before
      it. */
  lemma ClassifyOffStack(addr: bv64, sp: bv64, stackMask: bv64)
    requires addr & stackMask != sp & stackMask
    ensures ClassifyAddress(addr, sp, stackMask, SEGMENT_MASK) == Heap((addr - 1) & SEGMENT_MASK)
  {
  }

  /** Two heap addresses 0x20 apart inside one 32 MiB segment, off the
      current stack, are both sent to that segment. */
  lemma SameSegmentExample(sp: bv64, stackMask: bv64)
    requires 0x0200_0010 & stackMask != sp & stackMask
    requires 0x0200_0030 & stackMask != sp & stackMask
    ensures ClassifyAddress(0x0200_0010, sp, stackMask, SEGMENT_MASK) == Heap(0x0200_0000)
    ensures ClassifyAddress(0x0200_0030, sp, stackMask, SEGMENT_MASK) == Heap(0x0200_0000)
  {
  }

  /** Their shadows lie 0x20 apart. */
  lemma SameSegmentShadowsExample(table: bv64 -> bv64)
    requires table(0x0200_0000) & OFFSET_MASK == 0
    ensures ShadowAt(0x0200_0030, Heap(0x0200_0000), OFFSET_MASK, table)
         == ShadowAt(0x0200_0010, Heap(0x0200_0000), OFFSET_MASK, table) + 0x20
  {
  }
}
