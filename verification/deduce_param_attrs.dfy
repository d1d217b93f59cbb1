/** Deduction of the `readonly` parameter attribute from a function's
    optimized MIR: a visitor collects the arguments that may be mutated, a
    checker refuses a caller's argument moved straight into a callee, and the
    result vector is built from the collected set and trimmed of trailing
    default entries. */
module DeduceParamAttrs {
  import opened Basics
  import opened Types

  /** A MIR local; local 0 is the return place, locals 1..=arg_count are the
      arguments. */
  type Local = nat

  const RETURN_PLACE: Local := 0

  datatype NonMutatingUseContext =
    | Inspect | Copy | Move | SharedBorrow | ShallowBorrow | UniqueBorrow
    | NonMutatingAddressOf | NonMutatingProjection

  datatype MutatingUseContext =
    | Store | Deinit | SetDiscriminant | AsmOutput | CallDestination | Yield
    | Drop | Borrow | MutatingAddressOf | MutatingProjection | Retag

  datatype NonUseContext = StorageLive | StorageDead | AscribeUserTy | VarDebugInfo

  /** How a place occurrence uses its local. */
  datatype PlaceContext =
    | MutatingUse(mutating: MutatingUseContext)
    | NonMutatingUse(nonMutating: NonMutatingUseContext)
    | NonUse(nonUse: NonUseContext)

  /** One visit of a local in a context. */
  datatype Access = Access(local: Local, context: PlaceContext)

  /** A MIR operand whose place is a bare local. */
  datatype Operand = CopyOf(copied: Local) | MoveOf(moved: Local) | Constant

  /** The body as the visitor sees it, in visiting order: statements reduce
      to the accesses they make; call terminators keep their operands so
      that the argument checker can inspect them. */
  datatype Event =
    | Accesses(accesses: seq<Access>)
    | Call(func: Operand, args: seq<Operand>, destination: Local)

  datatype Fault = DirectArgumentMove(local: Local)

  /** The visitor state: a bit set over argument numbers 0..arg_count-1,
      where bit i stands for local i + 1. */
  datatype DeduceReadOnly = DeduceReadOnly(argCount: nat, mutableArgs: set<nat>)
  {
    /** Every bit lies inside the set's domain. */
    predicate Valid() {
      forall i :: i in mutableArgs ==> i < argCount
    }
  }

  /** The visitor's state for a body with `argCount` arguments. */
  function NewDeduceReadOnly(argCount: nat): (r: DeduceReadOnly)
    ensures r.Valid() && r.argCount == argCount
    ensures forall i :: 0 <= i < argCount ==> i !in r.mutableArgs
  {
    DeduceReadOnly(argCount, {})
  }

  /** Local `l` is one of the arguments of a body with `argCount` of them. */
  predicate IsArgument(l: Local, argCount: nat) {
    1 <= l <= argCount
  }

  /** `DeduceReadOnly::visit_local`. */
  function VisitLocal(st: DeduceReadOnly, local: Local, context: PlaceContext): (r: DeduceReadOnly)
    requires st.Valid()
    ensures r.Valid() && r.argCount == st.argCount
    ensures st.mutableArgs <= r.mutableArgs
    ensures local == RETURN_PLACE || local > st.argCount ==> r == st
    ensures r.mutableArgs ==
      if IsArgument(local, st.argCount) && context.MutatingUse?
      then st.mutableArgs + {local - 1}
      else st.mutableArgs
  {
    if local == RETURN_PLACE || local > st.argCount then
      st
    else
      // moves are treated as copies; the argument checker covers the one
      // position where that would be unsound
      var ctx :=
        if context == NonMutatingUse(Move) then NonMutatingUse(Copy) else context;
      match ctx
      case MutatingUse(_) => st.(mutableArgs := st.mutableArgs + {local - 1})
      case NonMutatingUse(Move) => assert false; st
      case NonMutatingUse(_) => st
      case NonUse(_) => st
  }

  /** Visiting a sequence of accesses in order. */
  function VisitAccesses(st: DeduceReadOnly, accs: seq<Access>): (r: DeduceReadOnly)
    requires st.Valid()
    ensures r.Valid() && r.argCount == st.argCount
    decreases |accs|
  {
    if |accs| == 0 then st
    else VisitAccesses(VisitLocal(st, accs[0].local, accs[0].context), accs[1..])
  }

  /** Argument number `k` (local k + 1) is mutated by some access in `accs`. */
  predicate MutatesArg(accs: seq<Access>, k: nat) {
    exists a :: a in accs && a.local == k + 1 && a.context.MutatingUse?
  }

  /** The arguments a run of accesses marks, defined without reference to the
      visitor. */
  function MarkedBy(argCount: nat, accs: seq<Access>): set<nat> {
    set k | 0 <= k < argCount && MutatesArg(accs, k)
  }

  /** Visiting accesses adds exactly the arguments some access uses
      mutatingly; in particular the set only grows, and a move never marks. */
  lemma {:induction false} VisitAccessesMarks(st: DeduceReadOnly, accs: seq<Access>)
    requires st.Valid()
    ensures VisitAccesses(st, accs).mutableArgs == st.mutableArgs + MarkedBy(st.argCount, accs)
    decreases |accs|
  {
    if |accs| == 0 {
      assert MarkedBy(st.argCount, accs) == {};
    } else {
      var st' := VisitLocal(st, accs[0].local, accs[0].context);
      VisitAccessesMarks(st', accs[1..]);
      forall k | 0 <= k < st.argCount
        ensures MutatesArg(accs, k) <==> (MutatesArg([accs[0]], k) || MutatesArg(accs[1..], k))
      {
        if MutatesArg(accs, k) {
          var a :| a in accs && a.local == k + 1 && a.context.MutatingUse?;
          if a != accs[0] {
            assert a in accs[1..];
          }
        }
        if MutatesArg(accs[1..], k) {
          var a :| a in accs[1..] && a.local == k + 1 && a.context.MutatingUse?;
          assert a in accs;
        }
        if MutatesArg([accs[0]], k) {
          assert accs[0] in accs;
        }
      }
      assert MarkedBy(st.argCount, [accs[0]]) ==
        if IsArgument(accs[0].local, st.argCount) && accs[0].context.MutatingUse?
        then {accs[0].local - 1} else {};
    }
  }

  /** The accesses a visit of an operand makes. */
  function OperandAccesses(op: Operand): seq<Access> {
    match op
    case CopyOf(l) => [Access(l, NonMutatingUse(Copy))]
    case MoveOf(l) => [Access(l, NonMutatingUse(Move))]
    case Constant => []
  }

  function OperandsAccesses(ops: seq<Operand>): seq<Access>
    decreases |ops|
  {
    if |ops| == 0 then [] else OperandAccesses(ops[0]) + OperandsAccesses(ops[1..])
  }

  /** The accesses `super_terminator` makes for an event: the callee operand,
      each argument operand, then the destination as a call's output. */
  function EventAccesses(e: Event): seq<Access> {
    match e
    case Accesses(accs) => accs
    case Call(func, args, dest) =>
      OperandAccesses(func) + OperandsAccesses(args) + [Access(dest, MutatingUse(CallDestination))]
  }

  /** `ArgumentChecker::visit_local`: it faults on a move of an argument. */
  predicate ArgumentCheckerFaults(argCount: nat, local: Local, context: PlaceContext) {
    context == NonMutatingUse(Move) && local != RETURN_PLACE && local <= argCount
  }

  /** The checker run on every `Move` operand of a call terminator; other
      operands are not checked. */
  function CheckCallArgs(argCount: nat, args: seq<Operand>): (r: Option<Fault>)
    ensures r.None? <==> forall i :: 0 <= i < |args| ==> !(args[i].MoveOf? && IsArgument(args[i].moved, argCount))
    ensures r.Some? ==> IsArgument(r.value.local, argCount) && MoveOf(r.value.local) in args
    decreases |args|
  {
    if |args| == 0 then None
    else if args[0].MoveOf? && ArgumentCheckerFaults(argCount, args[0].moved, NonMutatingUse(Move)) then
      Some(DirectArgumentMove(args[0].moved))
    else
      var rest := CheckCallArgs(argCount, args[1..]);
      assert forall i :: 1 <= i < |args| ==> args[i] == args[1..][i - 1];
      if rest.Some? then assert MoveOf(rest.value.local) in args[1..]; rest else rest
  }

  /** An event that moves one of the caller's arguments directly into a
      callee. */
  predicate MovesArgumentIntoCallee(e: Event, argCount: nat) {
    e.Call? && exists i :: 0 <= i < |e.args| && e.args[i].MoveOf? && IsArgument(e.args[i].moved, argCount)
  }

  /** `DeduceReadOnly::visit_terminator` and the statement visits: the
      checker first, then the ordinary visit. */
  function VisitEvent(st: DeduceReadOnly, e: Event): (r: Result<DeduceReadOnly, Fault>)
    requires st.Valid()
    ensures r.Err? <==> MovesArgumentIntoCallee(e, st.argCount)
    ensures r.Ok? ==> r.value.Valid() && r.value.argCount == st.argCount
    ensures r.Ok? ==> r.value.mutableArgs == st.mutableArgs + MarkedBy(st.argCount, EventAccesses(e))
  {
    VisitAccessesMarks(st, EventAccesses(e));
    if e.Call? && CheckCallArgs(st.argCount, e.args).Some? then
      Err(CheckCallArgs(st.argCount, e.args).value)
    else
      Ok(VisitAccesses(st, EventAccesses(e)))
  }

  /** Argument number `k` is mutated by some event of `body`. */
  predicate BodyMutatesArg(body: seq<Event>, k: nat) {
    exists j :: 0 <= j < |body| && MutatesArg(EventAccesses(body[j]), k)
  }

  /** The arguments some event of `body` marks. */
  function MutatedArgs(argCount: nat, body: seq<Event>): set<nat> {
    set k | 0 <= k < argCount && BodyMutatesArg(body, k)
  }

  /** Prefixing a body with one event adds what that event marks. */
  lemma MutatedArgsCons(argCount: nat, e: Event, body: seq<Event>)
    ensures MutatedArgs(argCount, [e] + body) == MarkedBy(argCount, EventAccesses(e)) + MutatedArgs(argCount, body)
  {
    var body' := [e] + body;
    forall k | 0 <= k < argCount
      ensures BodyMutatesArg(body', k) <==> MutatesArg(EventAccesses(e), k) || BodyMutatesArg(body, k)
    {
      if BodyMutatesArg(body', k) {
        var j :| 0 <= j < |body'| && MutatesArg(EventAccesses(body'[j]), k);
        if j > 0 {
          assert body'[j] == body[j - 1];
          assert MutatesArg(EventAccesses(body[j - 1]), k);
        }
      }
      if BodyMutatesArg(body, k) {
        var j :| 0 <= j < |body| && MutatesArg(EventAccesses(body[j]), k);
        assert body'[j + 1] == body[j];
        assert MutatesArg(EventAccesses(body'[j + 1]), k);
      }
      if MutatesArg(EventAccesses(e), k) {
        assert body'[0] == e;
      }
    }
  }

  /** Some event of `body` moves an argument into a callee. */
  predicate SomeEventFaults(body: seq<Event>, argCount: nat) {
    exists j :: 0 <= j < |body| && MovesArgumentIntoCallee(body[j], argCount)
  }

  /** A body faults iff its first event or the rest does. */
  lemma SomeEventFaultsCons(e: Event, body: seq<Event>, argCount: nat)
    ensures SomeEventFaults([e] + body, argCount) <==> MovesArgumentIntoCallee(e, argCount) || SomeEventFaults(body, argCount)
  {
    var body' := [e] + body;
    if SomeEventFaults(body', argCount) {
      var j :| 0 <= j < |body'| && MovesArgumentIntoCallee(body'[j], argCount);
      if j > 0 {
        assert body'[j] == body[j - 1];
      }
    }
    if SomeEventFaults(body, argCount) {
      var j :| 0 <= j < |body| && MovesArgumentIntoCallee(body[j], argCount);
      assert body'[j + 1] == body[j];
    }
    if MovesArgumentIntoCallee(e, argCount) {
      assert body'[0] == e;
    }
  }

  /** `visit_body`: the visitor run over the events in order; it adds the
      arguments some event marks, or stops with the checker's fault at the
      first call that moves an argument. */
  function VisitEvents(st: DeduceReadOnly, body: seq<Event>): (r: Result<DeduceReadOnly, Fault>)
    requires st.Valid()
    ensures r.Err? <==> SomeEventFaults(body, st.argCount)
    ensures r.Ok? ==> r.value.Valid() && r.value.argCount == st.argCount
    ensures r.Ok? ==> r.value.mutableArgs == st.mutableArgs + MutatedArgs(st.argCount, body)
    decreases |body|
  {
    if |body| == 0 then
      assert MutatedArgs(st.argCount, body) == {};
      Ok(st)
    else
      assert body == [body[0]] + body[1..];
      SomeEventFaultsCons(body[0], body[1..], st.argCount);
      MutatedArgsCons(st.argCount, body[0], body[1..]);
      match VisitEvent(st, body[0])
      case Err(f) => Err(f)
      case Ok(st') => VisitEvents(st', body[1..])
  }

  /** The visit of a whole body from the empty set. */
  function VisitBody(argCount: nat, body: seq<Event>): (r: Result<DeduceReadOnly, Fault>)
    ensures r.Err? <==> SomeEventFaults(body, argCount)
    ensures r.Ok? ==> r.value.Valid() && r.value.argCount == argCount
    ensures r.Ok? ==> r.value.mutableArgs == MutatedArgs(argCount, body)
  {
    VisitEvents(NewDeduceReadOnly(argCount), body)
  }

  /** `type_will_always_be_passed_directly`. */
  predicate TypeWillAlwaysBePassedDirectly(ty: Ty)
    ensures TypeWillAlwaysBePassedDirectly(ty) <==>
      ty.Bool? || ty.Char? || ty.Float? || ty.Int? || ty.Uint? || ty.RawPtr? || ty.Ref? || ty.Slice?
  {
    match ty
    case Bool | Char | Float | Int | Uint => true
    case RawPtr(_) | Ref(_) | Slice(_) => true
    case _ => false
  }

  /** The per-parameter attributes; the default has `read_only` unset. */
  datatype DeducedParamAttrs = DeducedParamAttrs(readOnly: bool)

  const DEFAULT_ATTRS: DeducedParamAttrs := DeducedParamAttrs(false)

  /** The optimized MIR of a function: its argument count, the types of its
      local declarations (return place first) and its visited events. */
  datatype Body = Body(argCount: nat, localDecls: seq<Ty>, events: seq<Event>)

  /** What `deduced_param_attrs` asks of the session and the query system. */
  datatype Query = Query(
    optimize: bool,            // the optimization level is not `No`
    incremental: bool,         // incremental compilation is on
    hasFreezeTrait: bool,      // the `Freeze` lang item exists
    fnTy: Ty,                  // `type_of(def_id)`
    inputs: seq<Ty>,           // the signature's inputs when `fnTy` is a `FnDef`
    mirAvailable: bool,
    body: Body)

  /** The number of entries `skip(1).take(arg_count)` yields. */
  function EntryCount(body: Body): (n: nat)
    ensures n <= body.argCount && n < |body.localDecls| + 1
    ensures |body.localDecls| > body.argCount ==> n == body.argCount
  {
    if |body.localDecls| == 0 then 0
    else if |body.localDecls| - 1 < body.argCount then |body.localDecls| - 1
    else body.argCount
  }

  /** The attribute vector before trimming. */
  function BuildAttrs(body: Body, mutated: set<nat>, isFreeze: Ty -> bool): (v: seq<DeducedParamAttrs>)
    ensures |v| == EntryCount(body) && |v| <= body.argCount
    ensures forall i :: 0 <= i < |v| ==>
      (v[i].readOnly <==> i !in mutated && isFreeze(body.localDecls[i + 1]))
  {
    seq(EntryCount(body), i requires 0 <= i < EntryCount(body) =>
      DeducedParamAttrs(i !in mutated && isFreeze(body.localDecls[i + 1])))
  }

  /** Popping default entries off the end: the result is the longest prefix
      that is empty or ends in a non-default entry. */
  method TrimTrailingDefaults(v: seq<DeducedParamAttrs>) returns (r: seq<DeducedParamAttrs>)
    ensures |r| <= |v| && r == v[..|r|]
    ensures |r| == 0 || r[|r| - 1] != DEFAULT_ATTRS
    ensures forall i :: |r| <= i < |v| ==> v[i] == DEFAULT_ATTRS
  {
    r := v;
    while |r| > 0 && r[|r| - 1] == DEFAULT_ATTRS
      invariant |r| <= |v| && r == v[..|r|]
      invariant forall i :: |r| <= i < |v| ==> v[i] == DEFAULT_ATTRS
    {
      r := r[..|r| - 1];
    }
  }

  /** The early exits of `deduced_param_attrs`: no optimization, incremental
      mode, no `Freeze` item, every input passed directly, or no MIR. */
  predicate SkipsDeduction(q: Query) {
    || !q.optimize
    || q.incremental
    || !q.hasFreezeTrait
    || (q.fnTy.FnDef? && forall i :: 0 <= i < |q.inputs| ==> TypeWillAlwaysBePassedDirectly(q.inputs[i]))
    || !q.mirAvailable
  }

  /** `deduced_param_attrs`: entry i is `read_only` iff argument i is never
      mutated and its type is `Freeze`; trailing defaults are dropped. */
  method DeducedParamAttrsOf(q: Query, isFreeze: Ty -> bool) returns (r: Result<seq<DeducedParamAttrs>, Fault>)
    ensures SkipsDeduction(q) ==> r == Ok([])
    ensures !SkipsDeduction(q) ==> (r.Err? <==> SomeEventFaults(q.body.events, q.body.argCount))
    ensures r.Ok? ==> |r.value| <= q.body.argCount
    ensures r.Ok? ==> |r.value| == 0 || r.value[|r.value| - 1].readOnly
    ensures r.Ok? && !SkipsDeduction(q) ==>
      var mutated := MutatedArgs(q.body.argCount, q.body.events);
      && |r.value| <= EntryCount(q.body)
      && (forall i :: 0 <= i < |r.value| ==>
            (r.value[i].readOnly <==> i !in mutated && isFreeze(q.body.localDecls[i + 1])))
      && (forall i :: |r.value| <= i < EntryCount(q.body) ==>
            !(i !in mutated && isFreeze(q.body.localDecls[i + 1])))
  {
    if !q.optimize || q.incremental {
      return Ok([]);
    }
    if !q.hasFreezeTrait {
      return Ok([]);
    }
    if q.fnTy.FnDef? {
      if forall i :: 0 <= i < |q.inputs| ==> TypeWillAlwaysBePassedDirectly(q.inputs[i]) {
        return Ok([]);
      }
    }
    if !q.mirAvailable {
      return Ok([]);
    }
    var visited := VisitBody(q.body.argCount, q.body.events);
    if visited.Err? {
      return Err(visited.error);
    }
    var attrs := BuildAttrs(q.body, visited.value.mutableArgs, isFreeze);
    var trimmed := TrimTrailingDefaults(attrs);
    r := Ok(trimmed);
  }
}
