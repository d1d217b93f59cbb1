# Smart-pointer metadata protection in the Rust compiler, modelled in Dafny

This project models the compiler passes that a Rust fork adds, or leans on,
to protect the metadata of smart pointers (the types that implement the
`MetaUpdate` trait). Values whose types contain such a pointer get a
physically separate "shadow" copy, and the compiler redirects copies
through it. The model covers five parts:

- **Read-only parameter deduction** (`deduce_param_attrs`). This is
  `deduce_param_attrs.dfy`, module `DeduceParamAttrs`.
  - A MIR visitor keeps a grow-only set of arguments that may be mutated, and treats moves as copies.
  - A checker aborts when a caller's argument is moved straight into a callee.
  - The result vector sets `read_only` for arguments that are never mutated and `Freeze`, and drops trailing default entries.
- **Shadow translation and `copy_smart_pointers`**. This is `shadow_copy.dfy`, module `ShadowCopy`.
  - The live shadow translation is the identity. It masks with `u64::MAX` and marks a field projection.
  - `copy_smart_pointers` is a four-way dispatch on which side's type is special.
  - The disabled stack/heap resolver is written as a pure function over a tagged `Stack | Heap(segment)` result. It is modelled both as its text stands and as its evident design.
- **Statement lowering** (`codegen_statement`). This is `statement.dfy`, module `Statement`, which uses `segments.dfy`, module `Segments`.
  - An operand local goes from unassigned to assigned exactly once, except for zero-sized values.
  - Storage markers act only on place locals, and several statement kinds lower to nothing.
  - `CopyNonOverlapping` always emits the plain copy. It adds a shadow copy when the destination is a raw pointer to a type containing a special type. That shadow copy is built from 64-bit mask arithmetic on the segment and offset bits.
- **Predefinition of mono items**. This is `mono_item.dfy`, module `MonoItem`.
  - `should_assume_dso_local` is an ordered decision list.
  - `predefine_static` aborts on a duplicate symbol.
  - `predefine_fn` applies the comdat rule, the smart-pointer type id rule, the `exchange_malloc` mark and the compiler-builtins visibility rule.
- **The save-analysis collector** (`rustc_save_analysis` `metaupdate.rs`). This is `save_metaupdate.dfy`, module `SaveMetaUpdate`.
  - It finds the `MetaUpdate` trait.
  - It records the ids of struct-literal field values and field-assignment right-hand sides whose type may implement the trait.
  - It exports node ids in their serialisable form.

`basics.dfy` holds `Option`, `Result` and the `u32`/`u64` ranges. `types.dfy` holds an abstract `Ty`. `builder.dfy` holds the abstract ops that the code generators emit.

Queries that the compiler answers elsewhere become function-valued parameters. These are:

- `is_freeze`, `contains_special_ty`, `is_special_ty`, normalisation and `type_id_hash`;
- `type_implements_trait(..).may_apply()`;
- the type checker's `node_type_opt`;
- the operand an rvalue lowers to;
- the 64-bit word the runtime keeps at the start of each heap segment.

Addresses are `bv64`.

Where the code and its design description disagree, the model follows the code:

- **Live shadow translation.** The live `get_smart_pointer_shadow` passes `dummy_mask` to `inttoptr`, but that name is defined only inside the commented-out block. The model takes the live result to be the masked address `addr & u64::MAX`, which is the input unchanged.
- **Disabled resolver's heap branch.** The design says the heap branch yields `table[segment] | offset`. As written, that branch stores a dummy byte at this address and then overwrites its result with the unmasked input (`metaupdate.rs:64-66`), so both branches join on the identity. `ShadowCopy.ResolveShadowAsWritten` models the text. `ShadowCopy.ResolveShadow` models the design, and the resolver lemmas are stated about it.
- **`CopyNonOverlapping`.** The design describes a protected copy that uses the same redirection as `copy_smart_pointers`. The code does not call `copy_smart_pointers` or the resolver. It computes its own shadow addresses:
  - the segment is `dst & 0xFFFF_FFFF_FE00_0000`, not `(dst - 1) & mask`;
  - the base is loaded from that segment of the destination;
  - the base is OR-ed with the offsets of both `dst` and `src`, so the source's own segment is ignored.

  `Statement.SourceSegmentIrrelevant` and `Statement.ShadowCopyLayout` state this.
- **Design features absent from the code.** The design's per-use "requires shadow / leave alone" classification and its cross-unit persistent store are not part of these source files. The collector here records a flat set of expression ids.

## Model

| member | source | states |
|---|---|---|
| DeduceParamAttrs.NewDeduceReadOnly | compiler/rustc_mir_transform/src/deduce_param_attrs.rs:27-29 | The visitor starts with no argument marked, over a domain of `arg_count` bits. |
| DeduceParamAttrs.VisitLocal | compiler/rustc_mir_transform/src/deduce_param_attrs.rs:33-59 | The return place and locals past `arg_count` leave the state unchanged. A mutating use of argument local k inserts bit k-1. Every non-mutating use, a move included, and every non-use leaves the set as it was. The set never shrinks, and every bit stays inside the domain. |
| DeduceParamAttrs.VisitAccessesMarks | compiler/rustc_mir_transform/src/deduce_param_attrs.rs:33-59 | Visiting a run of accesses adds exactly the arguments that some access in it uses mutatingly, defined without reference to the visitor. Nothing else is added or removed. |
| DeduceParamAttrs.CheckCallArgs | compiler/rustc_mir_transform/src/deduce_param_attrs.rs:112-124 | The checker faults iff some call operand is a `Move` of a local with 1 <= index <= arg_count. Moves of other locals and copies pass. A fault names such a moved argument. |
| DeduceParamAttrs.VisitEvent | compiler/rustc_mir_transform/src/deduce_param_attrs.rs:112-127 | A call aborts iff it moves a caller argument into the callee. Otherwise the visit adds exactly what the callee operand, the arguments and the call destination mark. |
| DeduceParamAttrs.VisitEvents | compiler/rustc_mir_transform/src/deduce_param_attrs.rs:219-221 | Visiting a body aborts iff some call in it moves an argument into a callee. Otherwise the set grows by exactly the arguments that some event mutates. |
| DeduceParamAttrs.VisitBody | compiler/rustc_mir_transform/src/deduce_param_attrs.rs:219-221 | From the empty set, the mutated set is exactly the arguments the body mutates, or the visit aborts with the checker's fault. |
| DeduceParamAttrs.TypeWillAlwaysBePassedDirectly | compiler/rustc_mir_transform/src/deduce_param_attrs.rs:161-173 | True exactly for bool, char, float, int, uint, raw pointer, reference and slice types. |
| DeduceParamAttrs.EntryCount | compiler/rustc_mir_transform/src/deduce_param_attrs.rs:232 | `skip(1).take(arg_count)` yields at most `arg_count` entries, and exactly `arg_count` when the body declares that many argument locals. |
| DeduceParamAttrs.BuildAttrs | compiler/rustc_mir_transform/src/deduce_param_attrs.rs:231-238 | There is one entry per visited argument. Entry i is `read_only` iff bit i is unset and argument i's type is `Freeze`. |
| DeduceParamAttrs.TrimTrailingDefaults | compiler/rustc_mir_transform/src/deduce_param_attrs.rs:243-246 | The result is a prefix of the input that is empty or ends in a non-default entry. Every dropped entry is the default. |
| DeduceParamAttrs.DeducedParamAttrsOf | compiler/rustc_mir_transform/src/deduce_param_attrs.rs:181-249 | Each early exit gives the empty slice. Otherwise the call aborts iff an argument is moved into a callee. Each kept entry i is `read_only` iff argument i is never mutated and is `Freeze`. There are at most `arg_count` entries, the last is `read_only`, and no trimmed entry would have been `read_only`. |
| ShadowCopy.GetSmartPointerShadow | compiler/rustc_codegen_llvm/src/metaupdate.rs:16-27 | The live translation returns the input address unchanged and emits one field-projection mark on it. |
| ShadowCopy.CopySmartPointers | compiler/rustc_codegen_llvm/src/metaupdate.rs:83-103 | Nothing is emitted iff neither type is special. Otherwise there is one copy after the translations of src and then dst, and an operand is translated iff its own type is special. Every copy has length 1 and the given alignment on both sides and the given flags. |
| ShadowCopy.CopySmartPointersCases | compiler/rustc_codegen_llvm/src/metaupdate.rs:92-102 | The four cases: shadow to shadow, shadow to the nominal destination, nominal source to shadow, and no copy. |
| ShadowCopy.ClassifyAddress | compiler/rustc_codegen_llvm/src/metaupdate.rs:39-45 | An address takes the stack path iff its `stack_mask` bits equal those of the stack pointer, that is iff the XOR of the masked values is zero. |
| ShadowCopy.ClassifyOffStack | compiler/rustc_codegen_llvm/src/metaupdate.rs:43-57 | Off the stack, an address goes to the segment `(addr - 1) & segment_mask`. |
| ShadowCopy.ResolveShadow | compiler/rustc_codegen_llvm/src/metaupdate.rs:39-61 | The resolver's design: the identity on the stack, and `table[(addr - 1) & segment_mask] \| (addr & lower_mask)` on the heap. A heap shadow keeps the address's offset bits whenever the table base has none. |
| ShadowCopy.ResolveShadowAsWritten | compiler/rustc_codegen_llvm/src/metaupdate.rs:39-71 | As written, both branches yield the input address. Only the heap branch emits a load of the segment word and then a one-byte store at the computed heap shadow. |
| ShadowCopy.HeapShadowIsBasePlusOffset | compiler/rustc_codegen_llvm/src/metaupdate.rs:56-61 | When the base has no offset bits, a heap shadow is the segment's base plus the address's offset. |
| ShadowCopy.HeapShadowInjective | compiler/rustc_codegen_llvm/src/metaupdate.rs:56-61 | Heap shadows are one-to-one when the table's bases carry no offset bits and distinct segments have distinct bases. |
| ShadowCopy.SameSegmentExample | compiler/rustc_codegen_llvm/src/metaupdate.rs:56-57 | Off the stack, 0x0200_0010 and 0x0200_0030 both resolve to segment 0x0200_0000 under the 32 MiB segment mask. |
| ShadowCopy.SameSegmentShadowsExample | compiler/rustc_codegen_llvm/src/metaupdate.rs:59-61 | The shadows of those two addresses lie exactly 0x20 apart. |
| Segments.Offset | compiler/rustc_codegen_ssa/src/mir/statement.rs:107-108 | An offset has no segment bits and is at most 0x1FF_FFFF. |
| Segments.Segment | compiler/rustc_codegen_ssa/src/mir/statement.rs:106-107 | Segment and offset are disjoint and OR back to the address. |
| Segments.SegmentOffsetDetermineAddress | compiler/rustc_codegen_ssa/src/mir/statement.rs:106-107 | Segment and offset together determine the address. |
| Statement.CodegenAssign | compiler/rustc_codegen_ssa/src/mir/statement.rs:16-47 | An assignment aborts iff its target is a bare operand local that already holds a non-zero-sized value. A bare operand local in state `None` takes the rvalue's operand. Every other assignment leaves all local states as they were. |
| Statement.SecondAssignmentAborts | compiler/rustc_codegen_ssa/src/mir/statement.rs:23-36 | Assigning an unassigned operand local a non-zero-sized value and then assigning it again aborts with "already assigned". |
| Statement.ZeroSizedReassignmentKeepsState | compiler/rustc_codegen_ssa/src/mir/statement.rs:29-41 | A zero-sized operand local may be assigned again, and its state stays as the first assignment left it. |
| Statement.CodegenStorage | compiler/rustc_codegen_ssa/src/mir/statement.rs:59-74 | `StorageLive`/`StorageDead` emit a mark on the local's place iff the local is a sized or unsized place, and never change any local's state. |
| Statement.CopyBytes | compiler/rustc_codegen_ssa/src/mir/statement.rs:94 | The byte count is count times the pointee size, modulo 2^64, and equals the product when that product fits. |
| Statement.ShadowMemcpy | compiler/rustc_codegen_ssa/src/mir/statement.rs:111-115 | The shadow copy moves `bytes` bytes with empty flags and the pointee alignment on both sides. |
| Statement.ShadowCopyOps | compiler/rustc_codegen_ssa/src/mir/statement.rs:104-115 | The base is loaded from the start of dst's segment, then one copy runs between the two shadow addresses built on that base. |
| Statement.CodegenCopyNonOverlapping | compiler/rustc_codegen_ssa/src/mir/statement.rs:84-119 | The call aborts iff the destination has no pointee layout. Otherwise the plain dst-from-src copy of count times size bytes is always first. The shadow load and copy follow iff dst is a raw pointer whose pointee contains a special type. |
| Statement.CodegenStatement | compiler/rustc_codegen_ssa/src/mir/statement.rs:13-125 | `Deinit`, `FakeRead`, `Retag`, `AscribeUserType` and `Nop` emit nothing and change nothing. Only assignments change local states, and only assignments and copies abort. Every lowering keeps settled locals as they were. |
| Statement.CodegenBlock | compiler/rustc_codegen_ssa/src/mir/statement.rs:13-125 | Across any run of statements, place locals and assigned operand locals keep their state, and operand locals stay operand locals. |
| Statement.SourceSegmentIrrelevant | compiler/rustc_codegen_ssa/src/mir/statement.rs:104-112 | Two sources with the same offset bits get the same shadow copy, whatever their segments. |
| Statement.ShadowCopyLayout | compiler/rustc_codegen_ssa/src/mir/statement.rs:104-115 | Given a base without offset bits, both shadow addresses lie in the base's segment, at the offsets of dst and of src, that is at base plus each offset. |
| Statement.ShadowAddressLayout | compiler/rustc_codegen_ssa/src/mir/statement.rs:106-111 | One shadow address splits back into the base and the address's offset. |
| MonoItem.ShouldAssumeDsoLocal | compiler/rustc_codegen_llvm/src/mono_item.rs:129-180 | Internal or private linkage gives true whatever else holds. Non-default visibility without extern-weak linkage gives true. Any other true verdict comes from the all-executable rule or from the later rules with none of powerpc64, thread-local or OSX firing. |
| MonoItem.FirstMatch | compiler/rustc_codegen_llvm/src/mono_item.rs:137-179 | An ordered rule list yields the verdict of the first applying rule, or the fallback when none applies. |
| MonoItem.ShouldAssumeDsoLocalIsFirstMatch | compiler/rustc_codegen_llvm/src/mono_item.rs:137-179 | The decision equals the first match of a seven-rule list, in order: internal/private, visibility, all-executable, powerpc64, thread-local, OSX, static. The fallback is PIE and not a declaration. |
| MonoItem.PredefineStatic | compiler/rustc_codegen_llvm/src/mono_item.rs:17-44 | The call aborts iff the symbol is already defined. Otherwise the symbol names a non-thread-local global with the requested linkage and visibility, DSO-local as decided. The static's instance maps to the symbol, and all other symbols are unchanged. |
| MonoItem.SmartPointerTypeId | compiler/rustc_codegen_llvm/src/mono_item.rs:66-85 | Only methods of special impls with type arguments get an id. Only the first type argument is inspected, after normalisation. The id is 0 if that argument is special and its type hash otherwise. |
| MonoItem.EffectiveVisibility | compiler/rustc_codegen_llvm/src/mono_item.rs:99-110 | In compiler-builtins, every non-internal, non-private function is Hidden. Otherwise the requested visibility applies. |
| MonoItem.PredefineFn | compiler/rustc_codegen_llvm/src/mono_item.rs:46-123 | The call aborts iff the type arguments need inference. A comdat is set iff linkage is LinkOnceODR or WeakODR. The type id, `exchange_malloc` mark and visibility rules apply. DSO-locality is decided on the resulting attributes. The instance maps to the symbol, and all other symbols are unchanged. |
| MonoItem.CompilerBuiltinsFunctionsAreDsoLocal | compiler/rustc_codegen_llvm/src/mono_item.rs:99-120 | In compiler-builtins, every predefined function without extern-weak linkage is DSO-local. |
| MonoItem.StaticDecisionIgnoresThreadLocalRule | compiler/rustc_codegen_llvm/src/mono_item.rs:159-165 | A freshly predefined static gets the same DSO-local verdict as a function with its linkage and visibility: the thread-local rule never fires for it. |
| SaveMetaUpdate.NewMetaUpdateHirId | compiler/rustc_save_analysis/src/metaupdate.rs:28-34 | The exported id keeps the local id and the owner's definition index exactly. |
| SaveMetaUpdate.MetaUpdateHirIdRoundTrip | compiler/rustc_save_analysis/src/metaupdate.rs:28-43 | The conversion and its inverse (present in the source only as commented-out code) undo each other in both directions. |
| SaveMetaUpdate.MetaUpdateHirIdInjective | compiler/rustc_save_analysis/src/metaupdate.rs:28-34 | Distinct nodes are exported as distinct ids. |
| SaveMetaUpdate.FindMetaUpdateTrait | compiler/rustc_save_analysis/src/metaupdate.rs:92-97 | The result is None iff no trait is named `MetaUpdate`. Otherwise it is the id of the first such trait in enumeration order. |
| SaveMetaUpdate.New | compiler/rustc_save_analysis/src/metaupdate.rs:85-100 | A new visitor has nothing recorded and holds the first `MetaUpdate` trait, if any. |
| SaveMetaUpdate.NodeRecords | compiler/rustc_save_analysis/src/metaupdate.rs:119-139 | A struct literal records exactly its field values whose type is known and may implement the trait. An assignment records its right-hand side only when the left side is a field projection and the right side's type is known and may implement the trait. Any other expression records nothing. |
| SaveMetaUpdate.VisitExpr | compiler/rustc_save_analysis/src/metaupdate.rs:114-141 | With no `MetaUpdate` trait the visitor is unchanged. The recorded fields only grow, and `types` and the trait are never written. |
| SaveMetaUpdate.VisitExprRecords | compiler/rustc_save_analysis/src/metaupdate.rs:114-141 | Visiting an expression adds exactly the union of what its nodes record, whatever the visiting order. |
| SaveMetaUpdate.VisitExprIdempotent | compiler/rustc_save_analysis/src/metaupdate.rs:114-141 | Visiting the same expression twice records nothing new. |
| SaveMetaUpdate.ExportedTypes | compiler/rustc_save_analysis/src/metaupdate.rs:47-49 | An exported id is in the `types` list iff the node it converts back to is in the `types` set. |
| SaveMetaUpdate.ExportedFields | compiler/rustc_save_analysis/src/metaupdate.rs:51-53 | An exported id is in the `fields` list iff the node it converts back to is in the `fields` set. |
| SaveMetaUpdate.DumpSpecialTypes | compiler/rustc_save_analysis/src/metaupdate.rs:85-105 | `types` stays empty. Without a `MetaUpdate` trait nothing is recorded. Otherwise `fields` is the union of what the nodes of every body record. |
| SaveMetaUpdate.ExportedTypesEmpty | compiler/rustc_save_analysis/src/metaupdate.rs:47-49 | The exported `types` list is always empty. |

## Left out

- Moves and projections:
  - Places are bare locals.
  - Projections, and the extra accesses the MIR visitor makes for index projections, are not modelled.
  - A call's operands are a callee, arguments and a destination local.
  - `super_terminator`'s visits of other terminator kinds are folded into plain access lists.
- `debug_assert!(def_id.is_local())` (`deduce_param_attrs.rs:216`) is a debug-only check on the caller and is not modelled.
- LLVM and builder effects: IR construction, `ptrtoint`/`inttoptr`, debug locations and `LLVMRust*` calls. Emitted code is a list of abstract ops. `codegen_rvalue`, `codegen_place`, coverage and `assume` lowering are recorded as opaque requests.
- The live `get_smart_pointer_shadow` does not compile as written, because it names `dummy_mask`. The model uses the masked address in its place.
- The `LLVMReadStackPtr` value, the masks of the disabled resolver and the segment table are parameters. The disabled resolver's basic-block structure and phi are modelled as their joined value.
- `predefine_fn` leaves out these calls:
  - `declare_fn`'s get-or-insert of an existing declaration: the model always records a new declaration under the symbol;
  - `attributes::from_fn_attrs` and `set_link_section`: they are taken not to change linkage or visibility;
  - `fn_abi_of_instance`.
- `predefine_static` and `declare_global`: when the symbol exists only as a declaration, the model replaces it with a new global rather than reusing the existing one.
- The `RefCell` borrow of the instance map is not modelled.
- `DumpVisitor::save` (`metaupdate.rs:58-83` of save-analysis) is not modelled. It is file-system and JSON I/O.
- `dump_metaupdate_special_types`'s whole-crate traversal is given as a list of bodies. The HIR visitor's nested-body filter and the typeck and inference contexts are not modelled.
- `library/core/src/ptr/metadata_update.rs` declares the `MetaUpdate` trait and two empty functions. It appears only as the name the trait lookup matches.
- The clippy test `unit_arg_empty_blocks.rs` is unrelated to this core.
- Statement.CopyBytes: does not model the truncating multiplication on targets whose `usize` is narrower than 64 bits, because the shadow arithmetic of this code assumes 64-bit addresses.
