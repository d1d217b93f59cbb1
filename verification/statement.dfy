/** Statement lowering in the SSA code generator (`codegen_statement`): how
    each MIR statement changes the per-local state of the function being
    generated and what it emits, including the shadow copy that
    `CopyNonOverlapping` adds for raw pointers to special types. */
module Statement {
  import opened Basics
  import opened Types
  import opened Builder
  import opened Segments

  type Local = nat

  /** A place the generator already holds for a local, by its address. */
  datatype PlaceRef = PlaceRef(llval: bv64)

  /** A value produced for an operand local, and whether its layout is
      zero-sized. */
  datatype OperandRef = OperandRef(isZst: bool, value: bv64)

  /** The generator's view of one local (`LocalRef`): a sized or unsized
      place in memory, or an SSA operand not yet (`None`) or already
      (`Some`) assigned. */
  datatype LocalRef =
    | Place(place: PlaceRef)
    | UnsizedPlace(indirect: PlaceRef)
    | Operand(operand: Option<OperandRef>)

  /** A MIR place: a local and the projections applied to it. */
  datatype MirPlace = MirPlace(local: Local, projection: seq<nat>)

  /** The place as a bare local, when it has no projections. */
  function AsLocal(p: MirPlace): (r: Option<Local>)
    ensures r.Some? <==> |p.projection| == 0
    ensures r.Some? ==> r.value == p.local
  {
    if |p.projection| == 0 then Some(p.local) else None
  }

  /** An rvalue, kept abstract: lowering it is outside this model. */
  datatype Rvalue = Rvalue(id: nat)

  /** What `pointee_info_at` reports for the destination pointer. */
  datatype PointeeInfo = PointeeInfo(size: u64, align: nat)

  datatype StatementKind =
    | Assign(place: MirPlace, rvalue: Rvalue)
    | SetDiscriminant(discrPlace: MirPlace, variantIndex: nat)
    | Deinit(deinitPlace: MirPlace)
    | StorageLive(liveLocal: Local)
    | StorageDead(deadLocal: Local)
    | Coverage(coverage: nat)
    | Assume(condition: bv64)
    /** The intrinsic with its operands already lowered: the element count,
        the two pointers, the destination pointer's type and its pointee
        layout (`None` when the type is not a pointer). */
    | CopyNonOverlapping(count: u64, src: bv64, dst: bv64, dstTy: Ty, pointee: Option<PointeeInfo>)
    | FakeRead
    | Retag
    | AscribeUserType
    | Nop

  /** What lowering a statement asks of the builder. */
  datatype Emit =
    | Code(op: Op)
    | RvalueInto(dest: PlaceRef, value: Rvalue)
    | RvalueIntoUnsized(indirectDest: PlaceRef, unsizedValue: Rvalue)
    | RvalueIntoProjected(projected: MirPlace, projectedValue: Rvalue)
    | RvalueOperand(operandValue: Rvalue)
    | IntroduceLocal(introduced: Local)
    | StorageLiveMark(livePlace: PlaceRef)
    | StorageDeadMark(deadPlace: PlaceRef)
    | SetDiscr(discrTarget: MirPlace, variant: nat)
    | CoverageMark(mark: nat)
    | AssumeTrue(assumed: bv64)

  /** The two ways lowering aborts: `span_bug!` on a second assignment of
      a non-zero-sized operand local, and the `expect` on the destination's
      pointee layout. */
  datatype Fault = OperandAlreadyAssigned(local: Local) | ExpectedPointer

  /** The type and layout queries lowering consults: the operand an rvalue
      lowers to, `contains_special_ty`, and the 64-bit word the runtime
      keeps at each segment's start. */
  datatype Env = Env(
    operandOf: Rvalue -> OperandRef,
    containsSpecialTy: Ty -> bool,
    loadU64: bv64 -> bv64)

  /** The new local states and the emitted requests. */
  datatype Lowered = Lowered(locals: seq<LocalRef>, emitted: seq<Emit>)

  /** Every local the statement names directly is a local of the body. */
  predicate LocalsInRange(s: StatementKind, n: nat) {
    match s
    case Assign(place, _) => place.local < n
    case StorageLive(l) => l < n
    case StorageDead(l) => l < n
    case _ => true
  }

  /** A local whose state no statement can change: a place, or an operand
      that already holds its value. */
  predicate Settled(l: LocalRef) {
    l.Place? || l.UnsizedPlace? || (l.Operand? && l.operand.Some?)
  }

  /** `after` is reachable from `before` by lowering: settled locals keep
      their state and operand locals stay operand locals. */
  predicate Refines(before: seq<LocalRef>, after: seq<LocalRef>) {
    && |before| == |after|
    && forall i :: 0 <= i < |before| ==>
         (Settled(before[i]) ==> after[i] == before[i]) && (before[i].Operand? ==> after[i].Operand?)
  }

  /** An assignment. A projected place is written through memory; a bare
      local is written according to its state, and an operand local in
      state `None` takes the rvalue's operand. */
  function CodegenAssign(locals: seq<LocalRef>, place: MirPlace, rvalue: Rvalue, env: Env): (r: Result<Lowered, Fault>)
    requires place.local < |locals|
    ensures r.Err? <==>
      |place.projection| == 0 && locals[place.local].Operand? && locals[place.local].operand.Some?
      && !locals[place.local].operand.value.isZst
    ensures r.Err? ==> r.error == OperandAlreadyAssigned(place.local)
    ensures r.Ok? && |place.projection| == 0 && locals[place.local] == Operand(None) ==>
      r.value.locals == locals[place.local := Operand(Some(env.operandOf(rvalue)))]
    ensures r.Ok? && !(|place.projection| == 0 && locals[place.local] == Operand(None)) ==>
      r.value.locals == locals
  {
    match AsLocal(place)
    case None => Ok(Lowered(locals, [RvalueIntoProjected(place, rvalue)]))
    case Some(index) =>
      match locals[index]
      case Place(dest) => Ok(Lowered(locals, [RvalueInto(dest, rvalue)]))
      case UnsizedPlace(dest) => Ok(Lowered(locals, [RvalueIntoUnsized(dest, rvalue)]))
      case Operand(None) =>
        var operand := env.operandOf(rvalue);
        Ok(Lowered(locals[index := Operand(Some(operand))], [RvalueOperand(rvalue), IntroduceLocal(index)]))
      case Operand(Some(op)) =>
        if !op.isZst then Err(OperandAlreadyAssigned(index))
        else Ok(Lowered(locals, [RvalueOperand(rvalue)]))
  }

  /** `StorageLive`/`StorageDead`: a mark on the local's place, and nothing
      for an operand local. */
  function CodegenStorage(locals: seq<LocalRef>, local: Local, live: bool): (r: Lowered)
    requires local < |locals|
    ensures r.locals == locals
    ensures |r.emitted| <= 1
    ensures |r.emitted| == 1 <==> !locals[local].Operand?
    ensures |r.emitted| == 1 ==>
      var target := if locals[local].Place? then locals[local].place else locals[local].indirect;
      r.emitted[0] == (if live then StorageLiveMark(target) else StorageDeadMark(target))
  {
    match locals[local]
    case Place(p) => Lowered(locals, [if live then StorageLiveMark(p) else StorageDeadMark(p)])
    case UnsizedPlace(p) => Lowered(locals, [if live then StorageLiveMark(p) else StorageDeadMark(p)])
    case Operand(_) => Lowered(locals, [])
  }

  /** The number of bytes `CopyNonOverlapping` moves: the element count
      times the pointee size, an unchecked 64-bit multiplication. */
  function CopyBytes(count: u64, size: u64): (b: u64)
    ensures count * size < U64_LIMIT ==> b == count * size
    ensures (count * size - b) % U64_LIMIT == 0
  {
    var product := count * size;
    product % U64_LIMIT
  }

  /** Whether `CopyNonOverlapping` adds the shadow copy: the destination is
      a raw pointer whose pointee type contains a special type. */
  predicate NeedsShadowCopy(dstTy: Ty, containsSpecialTy: Ty -> bool) {
    dstTy.RawPtr? && containsSpecialTy(dstTy.pointee)
  }

  /** The shadow copy: both shadow addresses are `base` with the offset
      bits of dst and of src respectively. */
  function ShadowMemcpy(src: bv64, dst: bv64, base: bv64, align: nat, bytes: u64): (op: Op)
    ensures op.Memcpy? && op.len == bytes && op.flags == EMPTY_FLAGS
    ensures op.dstAlign == align && op.srcAlign == align
  {
    var safeDst := base | Offset(dst);
    var safeSrc := base | Offset(src);
    Memcpy(safeDst, align, safeSrc, align, bytes, EMPTY_FLAGS)
  }

  /** The shadow copy's ops: the base is loaded from the start of dst's
      segment, then the copy between the two shadow addresses. */
  function ShadowCopyOps(src: bv64, dst: bv64, align: nat, bytes: u64, loadU64: bv64 -> bv64): (ops: seq<Op>)
    ensures |ops| == 2
    ensures ops[0] == Load64(Segment(dst))
    ensures ops[1] == ShadowMemcpy(src, dst, loadU64(Segment(dst)), align, bytes)
  {
    var dstSegment := Segment(dst);
    var safeHouse := loadU64(dstSegment);
    [Load64(dstSegment), ShadowMemcpy(src, dst, safeHouse, align, bytes)]
  }

  /** `CopyNonOverlapping`: the plain copy, always, then the shadow copy
      when the destination's pointee contains a special type; a destination
      that is not a pointer aborts. */
  function CodegenCopyNonOverlapping(
    count: u64, src: bv64, dst: bv64, dstTy: Ty, pointee: Option<PointeeInfo>, env: Env): (r: Result<seq<Emit>, Fault>)
    ensures r.Err? <==> pointee.None?
    ensures r.Err? ==> r.error == ExpectedPointer
    ensures r.Ok? ==>
      && |r.value| == (if NeedsShadowCopy(dstTy, env.containsSpecialTy) then 3 else 1)
      && r.value[0] == Code(Memcpy(dst, pointee.value.align, src, pointee.value.align,
                                   CopyBytes(count, pointee.value.size), EMPTY_FLAGS))
    ensures r.Ok? && NeedsShadowCopy(dstTy, env.containsSpecialTy) ==>
      var ops := ShadowCopyOps(src, dst, pointee.value.align, CopyBytes(count, pointee.value.size), env.loadU64);
      r.value[1] == Code(ops[0]) && r.value[2] == Code(ops[1])
  {
    match pointee
    case None => Err(ExpectedPointer)
    case Some(info) =>
      var bytes := CopyBytes(count, info.size);
      var align := info.align;
      var plain := [Code(Memcpy(dst, align, src, align, bytes, EMPTY_FLAGS))];
      if dstTy.RawPtr? && env.containsSpecialTy(dstTy.pointee) then
        var ops := ShadowCopyOps(src, dst, align, bytes, env.loadU64);
        Ok(plain + [Code(ops[0]), Code(ops[1])])
      else
        Ok(plain)
  }

  /** The statements that lower to nothing at all. */
  predicate EmitsNothing(s: StatementKind) {
    s.Deinit? || s.FakeRead? || s.Retag? || s.AscribeUserType? || s.Nop?
  }

  /** `codegen_statement`. */
  function CodegenStatement(locals: seq<LocalRef>, s: StatementKind, env: Env): (r: Result<Lowered, Fault>)
    requires LocalsInRange(s, |locals|)
    ensures EmitsNothing(s) ==> r == Ok(Lowered(locals, []))
    ensures r.Err? ==> s.Assign? || s.CopyNonOverlapping?
    ensures r.Ok? && !s.Assign? ==> r.value.locals == locals
    ensures r.Ok? ==> Refines(locals, r.value.locals)
  {
    match s
    case Assign(place, rvalue) => CodegenAssign(locals, place, rvalue, env)
    case SetDiscriminant(place, variant) => Ok(Lowered(locals, [SetDiscr(place, variant)]))
    case Deinit(_) => Ok(Lowered(locals, []))
    case StorageLive(l) => Ok(CodegenStorage(locals, l, true))
    case StorageDead(l) => Ok(CodegenStorage(locals, l, false))
    case Coverage(c) => Ok(Lowered(locals, [CoverageMark(c)]))
    case Assume(cond) => Ok(Lowered(locals, [AssumeTrue(cond)]))
    case CopyNonOverlapping(count, src, dst, dstTy, pointee) =>
      (match CodegenCopyNonOverlapping(count, src, dst, dstTy, pointee, env)
       case Err(e) => Err(e)
       case Ok(emitted) => Ok(Lowered(locals, emitted)))
    case FakeRead() => Ok(Lowered(locals, []))
    case Retag() => Ok(Lowered(locals, []))
    case AscribeUserType() => Ok(Lowered(locals, []))
    case Nop() => Ok(Lowered(locals, []))
  }

  /** Every statement of a block names locals of the body. */
  predicate BlockInRange(stmts: seq<StatementKind>, n: nat) {
    forall i :: 0 <= i < |stmts| ==> LocalsInRange(stmts[i], n)
  }

  /** A straight-line block, statement by statement; the first abort ends
      it. */
  function CodegenBlock(locals: seq<LocalRef>, stmts: seq<StatementKind>, env: Env): (r: Result<Lowered, Fault>)
    requires BlockInRange(stmts, |locals|)
    ensures r.Ok? ==> Refines(locals, r.value.locals)
    decreases |stmts|
  {
    if |stmts| == 0 then Ok(Lowered(locals, []))
    else
      match CodegenStatement(locals, stmts[0], env)
      case Err(e) => Err(e)
      case Ok(first) =>
        assert BlockInRange(stmts[1..], |first.locals|) by {
          forall i | 0 <= i < |stmts[1..]|
            ensures LocalsInRange(stmts[1..][i], |first.locals|)
          {
            assert stmts[1..][i] == stmts[i + 1];
          }
        }
        match CodegenBlock(first.locals, stmts[1..], env)
        case Err(e) => Err(e)
        case Ok(rest) => Ok(Lowered(rest.locals, first.emitted + rest.emitted))
  }

  /** An operand local is assigned at most once: after a non-zero-sized
      assignment, a second assignment to the same local aborts. */
  lemma SecondAssignmentAborts(locals: seq<LocalRef>, l: Local, first: Rvalue, second: Rvalue, env: Env)
    requires l < |locals| && locals[l] == Operand(None)
    requires !env.operandOf(first).isZst
    ensures CodegenBlock(locals, [Assign(MirPlace(l, []), first), Assign(MirPlace(l, []), second)], env)
         == Err(OperandAlreadyAssigned(l))
  {
  }

  /** A zero-sized operand local may be assigned again: the state stays as
      the first assignment left it. */
  lemma ZeroSizedReassignmentKeepsState(locals: seq<LocalRef>, l: Local, first: Rvalue, second: Rvalue, env: Env)
    requires l < |locals| && locals[l] == Operand(None)
    requires env.operandOf(first).isZst
    ensures
      var r := CodegenBlock(locals, [Assign(MirPlace(l, []), first), Assign(MirPlace(l, []), second)], env);
      r.Ok? && r.value.locals == locals[l := Operand(Some(env.operandOf(first)))]
  {
    var stmts := [Assign(MirPlace(l, []), first), Assign(MirPlace(l, []), second)];
    var after := locals[l := Operand(Some(env.operandOf(first)))];
    assert CodegenStatement(locals, stmts[0], env).value.locals == after;
    assert stmts[1..] == [stmts[1]];
    var again := CodegenStatement(after, stmts[1], env);
    assert again.Ok? && again.value.locals == after;
    assert stmts[1..][1..] == [];
    assert CodegenBlock(after, [], env) == Ok(Lowered(after, []));
    var rest := CodegenBlock(after, stmts[1..], env);
    assert rest.Ok? && rest.value.locals == after;
  }

  /** Only dst's segment is consulted: two sources with the same offset
      bits get the same shadow copy, whatever their segments. */
  lemma SourceSegmentIrrelevant(src1: bv64, src2: bv64, dst: bv64, align: nat, bytes: u64, loadU64: bv64 -> bv64)
    requires Offset(src1) == Offset(src2)
    ensures ShadowCopyOps(src1, dst, align, bytes, loadU64) == ShadowCopyOps(src2, dst, align, bytes, loadU64)
  {
  }

  /** Given a base without offset bits, both shadow addresses lie in the
      base's segment, at the offsets of dst and src: the shadow copy moves
      between the same offsets as the plain copy, inside the segment whose
      base the runtime keeps at the start of dst's segment. */
  lemma ShadowCopyLayout(src: bv64, dst: bv64, base: bv64, align: nat, bytes: u64)
    requires base & OFFSET_MASK == 0
    ensures
      var copy := ShadowMemcpy(src, dst, base, align, bytes);
      && Segment(copy.dst) == base && Offset(copy.dst) == Offset(dst) && copy.dst == base + Offset(dst)
      && Segment(copy.src) == base && Offset(copy.src) == Offset(src) && copy.src == base + Offset(src)
  {
    ShadowAddressLayout(base, dst);
    ShadowAddressLayout(base, src);
  }

  /** One shadow address: a base without offset bits with `a`'s offset. */
  lemma ShadowAddressLayout(base: bv64, a: bv64)
    requires base & OFFSET_MASK == 0
    ensures Segment(base | Offset(a)) == base && Offset(base | Offset(a)) == Offset(a)
    ensures base | Offset(a) == base + Offset(a)
  {
    OrOffsetSplits(base, a);
    OrOffsetIsAdd(base, a);
  }
}
