/** Predefinition of monomorphised items in the LLVM back end: statics and
    functions get their symbol, linkage and visibility, functions of
    special impls get their smart-pointer type id, and every symbol is
    marked DSO-local when `should_assume_dso_local` decides so. The LLVM
    module is a map from symbol names to the attributes the model tracks. */
module MonoItem {
  import opened Basics
  import opened Types

  /** Linkage, as both rustc and LLVM name it (the conversion between the
      two is one-to-one). */
  datatype Linkage =
    | External | AvailableExternally | LinkOnceAny | LinkOnceODR | WeakAny | WeakODR
    | Appending | Internal | Private | ExternalWeak | Common

  datatype Visibility = Default | Hidden | Protected

  datatype CrateType = Executable | Dylib | Rlib | Staticlib | Cdylib | ProcMacro

  datatype RelocModel = Static | Pic | Pie | DynamicNoPic | Ropi | Rwpi | RopiRwpi

  /** The session facts the DSO-local decision reads. */
  datatype Session = Session(crateTypes: seq<CrateType>, arch: string, isLikeOsx: bool, relocModel: RelocModel)

  datatype ValueKind = GlobalVariable(threadLocal: bool) | Function

  /** An LLVM global value with the attributes predefinition sets. */
  datatype LlValue = LlValue(
    kind: ValueKind,
    linkage: Linkage,
    visibility: Visibility,
    isDefinition: bool,
    dsoLocal: bool,
    uniqueComdat: bool,
    smartPointerTypeId: Option<u64>,
    exchangeMalloc: bool)

  /** A monomorphic item: its definition and its type arguments. */
  datatype Instance = Instance(def: nat, substs: seq<Ty>)

  /** The code-generation context: the session, the module's values by
      symbol name, and the symbol each predefined instance got. */
  datatype Cx = Cx(sess: Session, values: map<string, LlValue>, instances: map<Instance, string>)

  /** The queries predefinition asks of the type context: whether type
      arguments still need inference, the (normalised, where normalisation
      succeeds) self type of the impl a method belongs to, whether a type
      is special, normalisation, the type hash, the `exchange_malloc` lang
      item, and whether the local crate is compiler-builtins. */
  datatype Tcx = Tcx(
    needsInfer: seq<Ty> -> bool,
    implSelfTy: nat -> Option<Ty>,
    isSpecialTy: Ty -> bool,
    normalize: Ty -> Ty,
    typeIdHash: Ty -> u64,
    exchangeMallocFn: Option<nat>,
    isCompilerBuiltins: bool)

  /** The two ways predefinition aborts: `span_fatal` on a symbol already
      defined, and the assertion that type arguments need no inference. */
  datatype Fatal = SymbolAlreadyDefined(symbol: string) | SubstsNeedInfer

  /** Every crate type being built is an executable (true of none). */
  predicate AllExecutable(crateTypes: seq<CrateType>) {
    forall i :: 0 <= i < |crateTypes| ==> crateTypes[i] == Executable
  }

  predicate IsPowerPc64(arch: string) {
    arch == "powerpc64" || arch == "powerpc64le"
  }

  predicate IsThreadLocalVar(v: LlValue) {
    v.kind.GlobalVariable? && v.kind.threadLocal
  }

  /** Whether `v` may be assumed local to the DSO or executable being
      linked. */
  function ShouldAssumeDsoLocal(sess: Session, v: LlValue, isDeclaration: bool): (r: bool)
    ensures v.linkage == Internal || v.linkage == Private ==> r
    ensures v.visibility != Default && v.linkage != ExternalWeak ==> r
    ensures r && v.linkage != Internal && v.linkage != Private && (v.visibility == Default || v.linkage == ExternalWeak) ==>
      (AllExecutable(sess.crateTypes) && !isDeclaration && v.linkage != AvailableExternally)
      || (!IsPowerPc64(sess.arch) && !IsThreadLocalVar(v) && !sess.isLikeOsx
          && (sess.relocModel == Static || (sess.relocModel == Pie && !isDeclaration)))
  {
    if v.linkage == Internal || v.linkage == Private then
      true
    else if v.visibility != Default && v.linkage != ExternalWeak then
      true
    else
      var allExe := AllExecutable(sess.crateTypes);
      var isDeclarationForLinker := isDeclaration || v.linkage == AvailableExternally;
      if allExe && !isDeclarationForLinker then
        true
      else if IsPowerPc64(sess.arch) then
        false
      else if IsThreadLocalVar(v) then
        false
      else if sess.isLikeOsx then
        false
      else if sess.relocModel == Static then
        true
      else
        sess.relocModel == Pie && !isDeclaration
  }

  /** One rule of an ordered decision list: when it applies, and what it
      decides. */
  datatype Rule = Rule(applies: bool, verdict: bool)

  /** The verdict of the first rule that applies, or `fallback` when none
      does. */
  function FirstMatch(rules: seq<Rule>, fallback: bool): (r: bool)
    ensures (forall i :: 0 <= i < |rules| ==> !rules[i].applies) ==> r == fallback
    ensures forall i :: 0 <= i < |rules| && rules[i].applies && (forall j :: 0 <= j < i ==> !rules[j].applies) ==>
      r == rules[i].verdict
    decreases |rules|
  {
    if |rules| == 0 then fallback
    else if rules[0].applies then rules[0].verdict
    else
      var rest := FirstMatch(rules[1..], fallback);
      assert forall i :: 1 <= i < |rules| ==> rules[1..][i - 1] == rules[i];
      rest
  }

  /** The DSO-local decision as a list of rules in priority order, and the
      verdict when none applies. */
  function DsoLocalRules(sess: Session, v: LlValue, isDeclaration: bool): seq<Rule> {
    [ Rule(v.linkage == Internal || v.linkage == Private, true),
      Rule(v.visibility != Default && v.linkage != ExternalWeak, true),
      Rule(AllExecutable(sess.crateTypes) && !(isDeclaration || v.linkage == AvailableExternally), true),
      Rule(IsPowerPc64(sess.arch), false),
      Rule(IsThreadLocalVar(v), false),
      Rule(sess.isLikeOsx, false),
      Rule(sess.relocModel == Static, true) ]
  }

  function DsoLocalFallback(sess: Session, isDeclaration: bool): bool {
    sess.relocModel == Pie && !isDeclaration
  }

  /** The nested decision is the first match of the rule list. */
  lemma ShouldAssumeDsoLocalIsFirstMatch(sess: Session, v: LlValue, isDeclaration: bool)
    ensures ShouldAssumeDsoLocal(sess, v, isDeclaration)
         == FirstMatch(DsoLocalRules(sess, v, isDeclaration), DsoLocalFallback(sess, isDeclaration))
  {
    var rules := DsoLocalRules(sess, v, isDeclaration);
    if rules[0].applies {
    } else if rules[1].applies {
      NoneAppliesBefore(rules, 1);
    } else if rules[2].applies {
      NoneAppliesBefore(rules, 2);
    } else if rules[3].applies {
      NoneAppliesBefore(rules, 3);
    } else if rules[4].applies {
      NoneAppliesBefore(rules, 4);
    } else if rules[5].applies {
      NoneAppliesBefore(rules, 5);
    } else if rules[6].applies {
      NoneAppliesBefore(rules, 6);
    } else {
      NoneAppliesBefore(rules, 7);
    }
  }

  /** A rule list whose first `k` rules were each seen not to apply. */
  lemma NoneAppliesBefore(rules: seq<Rule>, k: nat)
    requires k <= |rules|
    requires k > 0 ==> !rules[0].applies
    requires k > 1 ==> !rules[1].applies
    requires k > 2 ==> !rules[2].applies
    requires k > 3 ==> !rules[3].applies
    requires k > 4 ==> !rules[4].applies
    requires k > 5 ==> !rules[5].applies
    requires k > 6 ==> !rules[6].applies
    requires k <= 7
    ensures forall j :: 0 <= j < k ==> !rules[j].applies
  {
  }

  /** A global variable with the given linkage and visibility; `define_global`
      creates it without an initializer and not thread-local. */
  function NewGlobal(linkage: Linkage, visibility: Visibility): LlValue {
    LlValue(GlobalVariable(false), linkage, visibility, false, false, false, None, false)
  }

  /** `predefine_static`: aborts when the symbol is already defined;
      otherwise the symbol names a new global with the requested linkage
      and visibility, DSO-local as decided, and the static's instance maps
      to it. */
  function PredefineStatic(cx: Cx, def: nat, linkage: Linkage, visibility: Visibility, symbol: string): (r: Result<Cx, Fatal>)
    ensures r.Err? <==> symbol in cx.values && cx.values[symbol].isDefinition
    ensures r.Err? ==> r.error == SymbolAlreadyDefined(symbol)
    ensures r.Ok? ==>
      && r.value.sess == cx.sess
      && symbol in r.value.values
      && var g := r.value.values[symbol];
      && g.kind == GlobalVariable(false) && g.linkage == linkage && g.visibility == visibility
      && g.dsoLocal == ShouldAssumeDsoLocal(cx.sess, g, false)
      && r.value.instances == cx.instances[Instance(def, []) := symbol]
      && forall s :: s in cx.values && s != symbol ==> s in r.value.values && r.value.values[s] == cx.values[s]
    ensures r.Ok? ==> r.value.values.Keys == cx.values.Keys + {symbol}
  {
    if symbol in cx.values && cx.values[symbol].isDefinition then
      Err(SymbolAlreadyDefined(symbol))
    else
      var g := NewGlobal(linkage, visibility);
      var g := g.(dsoLocal := ShouldAssumeDsoLocal(cx.sess, g, false));
      Ok(cx.(values := cx.values[symbol := g], instances := cx.instances[Instance(def, []) := symbol]))
  }

  /** A comdat of its own is set for the ODR-mergeable linkages. */
  predicate NeedsUniqueComdat(linkage: Linkage) {
    linkage == LinkOnceODR || linkage == WeakODR
  }

  /** The smart-pointer type id of a method of a special impl: only the
      first type argument is consulted, after normalisation; its id is 0
      when it is itself special and its type hash otherwise. Methods of
      other impls, free functions and methods without type arguments get
      none. */
  function SmartPointerTypeId(instance: Instance, tcx: Tcx): (r: Option<u64>)
    ensures r.Some? <==>
      tcx.implSelfTy(instance.def).Some? && tcx.isSpecialTy(tcx.implSelfTy(instance.def).value) && |instance.substs| > 0
    ensures r.Some? ==>
      var inner := tcx.normalize(instance.substs[0]);
      (r.value == 0 <== tcx.isSpecialTy(inner)) && (!tcx.isSpecialTy(inner) ==> r.value == tcx.typeIdHash(inner))
  {
    match tcx.implSelfTy(instance.def)
    case None => None
    case Some(implType) =>
      if tcx.isSpecialTy(implType) && |instance.substs| > 0 then
        var innerTy := tcx.normalize(instance.substs[0]);
        var typeId := if tcx.isSpecialTy(innerTy) then 0 else tcx.typeIdHash(innerTy);
        Some(typeId)
      else
        None
  }

  /** The visibility a function gets: in compiler-builtins, Hidden for
      everything not internal or private; elsewhere the requested one. */
  function EffectiveVisibility(linkage: Linkage, visibility: Visibility, isCompilerBuiltins: bool): (r: Visibility)
    ensures isCompilerBuiltins && linkage != Internal && linkage != Private ==> r == Hidden
    ensures !(isCompilerBuiltins && linkage != Internal && linkage != Private) ==> r == visibility
  {
    if linkage != Internal && linkage != Private && isCompilerBuiltins then Hidden else visibility
  }

  /** The function value `predefine_fn` declares, before the DSO-local
      decision. */
  function DeclaredFn(instance: Instance, linkage: Linkage, visibility: Visibility, tcx: Tcx): LlValue {
    LlValue(
      Function, linkage, EffectiveVisibility(linkage, visibility, tcx.isCompilerBuiltins), false, false,
      NeedsUniqueComdat(linkage), SmartPointerTypeId(instance, tcx), tcx.exchangeMallocFn == Some(instance.def))
  }

  /** `predefine_fn`: aborts when the type arguments still need inference;
      otherwise the symbol names a function declaration with the comdat,
      smart-pointer id, `exchange_malloc` mark and visibility rules applied,
      DSO-local as decided on those attributes, and the instance maps to
      it. */
  function PredefineFn(cx: Cx, instance: Instance, linkage: Linkage, visibility: Visibility, symbol: string, tcx: Tcx): (r: Result<Cx, Fatal>)
    ensures r.Err? <==> tcx.needsInfer(instance.substs)
    ensures r.Err? ==> r.error == SubstsNeedInfer
    ensures r.Ok? ==>
      && r.value.sess == cx.sess
      && symbol in r.value.values
      && var f := r.value.values[symbol];
      && f.kind == Function && f.linkage == linkage && !f.isDefinition
      && (f.uniqueComdat <==> linkage == LinkOnceODR || linkage == WeakODR)
      && f.smartPointerTypeId == SmartPointerTypeId(instance, tcx)
      && (f.exchangeMalloc <==> tcx.exchangeMallocFn == Some(instance.def))
      && f.visibility == EffectiveVisibility(linkage, visibility, tcx.isCompilerBuiltins)
      && f.dsoLocal == ShouldAssumeDsoLocal(cx.sess, f, false)
      && r.value.instances == cx.instances[instance := symbol]
      && forall s :: s in cx.values && s != symbol ==> s in r.value.values && r.value.values[s] == cx.values[s]
    ensures r.Ok? ==> r.value.values.Keys == cx.values.Keys + {symbol}
  {
    if tcx.needsInfer(instance.substs) then
      Err(SubstsNeedInfer)
    else
      var lldecl := DeclaredFn(instance, linkage, visibility, tcx);
      var lldecl := lldecl.(dsoLocal := ShouldAssumeDsoLocal(cx.sess, lldecl, false));
      Ok(cx.(values := cx.values[symbol := lldecl], instances := cx.instances[instance := symbol]))
  }

  /** In compiler-builtins every predefined function is DSO-local unless it
      has extern-weak linkage: internal and private ones by the first rule,
      the rest because they are made Hidden. */
  lemma CompilerBuiltinsFunctionsAreDsoLocal(
    cx: Cx, instance: Instance, linkage: Linkage, visibility: Visibility, symbol: string, tcx: Tcx)
    requires tcx.isCompilerBuiltins && !tcx.needsInfer(instance.substs)
    requires linkage != ExternalWeak
    ensures PredefineFn(cx, instance, linkage, visibility, symbol, tcx).value.values[symbol].dsoLocal
  {
  }

  /** A static is never thread-local when predefined, so the thread-local
      rule never decides for it: its decision is the same as for a
      function with the same linkage and visibility. */
  lemma StaticDecisionIgnoresThreadLocalRule(sess: Session, linkage: Linkage, visibility: Visibility)
    ensures ShouldAssumeDsoLocal(sess, NewGlobal(linkage, visibility), false)
         == ShouldAssumeDsoLocal(sess, LlValue(Function, linkage, visibility, false, false, false, None, false), false)
  {
  }
}
