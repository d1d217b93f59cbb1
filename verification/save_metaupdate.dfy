/** The save-analysis pass that finds the expressions whose values may be
    smart pointers: struct-literal field values and right-hand sides of
    field assignments whose type may implement the `MetaUpdate` trait. The
    HIR is an expression tree; typing and trait selection are queries
    passed in. */
module SaveMetaUpdate {
  import opened Basics
  import opened Types

  /** A HIR node id: the owning item's definition index and the node's
      index inside that owner. */
  datatype HirId = HirId(owner: nat, localId: u32)

  /** The exported form of a node id. */
  datatype MetaUpdateHirId = MetaUpdateHirId(localId: u32, defIndex: nat)

  /** A trait of the crate graph, by definition id and name. */
  datatype TraitDef = TraitDef(id: nat, name: string)

  /** What the pass records. Only `fields` is ever written. */
  datatype SpecialTypes = SpecialTypes(types: set<HirId>, fields: set<HirId>)

  datatype DumpVisitor = DumpVisitor(specialTypes: SpecialTypes, traitId: Option<nat>)

  /** A HIR expression, reduced to the kinds the pass distinguishes. */
  datatype Expr = Expr(id: HirId, kind: ExprKind)

  datatype ExprKind =
    /** A struct literal with its field initialisers and optional base. */
    | Struct(fields: seq<ExprField>, base: Option<Expr>)
    | Assign(lhs: Expr, rhs: Expr)
    /** A field projection `receiver.name`. */
    | Field(receiver: Expr, name: string)
    /** Any other expression, with its subexpressions in visiting order. */
    | Other(children: seq<Expr>)

  datatype ExprField = ExprField(name: string, expr: Expr)

  /** The queries the pass makes: the type the type checker gave a node,
      if any, and whether a type may implement a given trait. */
  datatype Queries = Queries(typeOf: HirId -> Option<Ty>, mayApply: (nat, Ty) -> bool)

  /** `MetaUpdateHirId::new`. */
  function NewMetaUpdateHirId(h: HirId): (m: MetaUpdateHirId)
    ensures m.localId == h.localId && m.defIndex == h.owner
  {
    MetaUpdateHirId(h.localId, h.owner)
  }

  /** The inverse conversion. */
  function ToHirId(m: MetaUpdateHirId): (h: HirId)
    ensures h.owner == m.defIndex && h.localId == m.localId
  {
    HirId(m.defIndex, m.localId)
  }

  /** The conversion loses nothing: it has an inverse on both sides, so
      distinct nodes are exported as distinct ids. */
  lemma MetaUpdateHirIdRoundTrip(h: HirId, m: MetaUpdateHirId)
    ensures ToHirId(NewMetaUpdateHirId(h)) == h
    ensures NewMetaUpdateHirId(ToHirId(m)) == m
  {
  }

  lemma MetaUpdateHirIdInjective(h1: HirId, h2: HirId)
    requires NewMetaUpdateHirId(h1) == NewMetaUpdateHirId(h2)
    ensures h1 == h2
  {
  }

  const META_UPDATE: string := "MetaUpdate"

  /** The first trait, in enumeration order, named `MetaUpdate`. */
  function FindMetaUpdateTrait(traits: seq<TraitDef>): (r: Option<nat>)
    ensures r.None? <==> forall i :: 0 <= i < |traits| ==> traits[i].name != META_UPDATE
    ensures r.Some? ==> exists i :: 0 <= i < |traits| && traits[i].name == META_UPDATE && traits[i].id == r.value
                                   && forall j :: 0 <= j < i ==> traits[j].name != META_UPDATE
    decreases |traits|
  {
    if |traits| == 0 then None
    else if traits[0].name == META_UPDATE then Some(traits[0].id)
    else
      var r := FindMetaUpdateTrait(traits[1..]);
      assert forall i :: 1 <= i < |traits| ==> traits[1..][i - 1] == traits[i];
      if r.Some? then
        var k :| 0 <= k < |traits[1..]| && traits[1..][k].name == META_UPDATE && traits[1..][k].id == r.value
                 && forall j :: 0 <= j < k ==> traits[1..][j].name != META_UPDATE;
        assert traits[k + 1].name == META_UPDATE && traits[k + 1].id == r.value;
        r
      else
        r
  }

  /** `DumpVisitor::new`: nothing recorded, and the `MetaUpdate` trait if
      the crate graph has one. */
  function New(traits: seq<TraitDef>): (v: DumpVisitor)
    ensures v.specialTypes == SpecialTypes({}, {})
    ensures v.traitId == FindMetaUpdateTrait(traits)
  {
    DumpVisitor(SpecialTypes({}, {}), FindMetaUpdateTrait(traits))
  }

  /** A node whose type is known and may implement the trait. */
  predicate MayBeSmartPointer(id: HirId, traitId: nat, q: Queries) {
    q.typeOf(id).Some? && q.mayApply(traitId, q.typeOf(id).value)
  }

  /** The ids visiting `e` itself records, before its subexpressions are
      walked: the qualifying field values of a struct literal, the
      qualifying right-hand side of an assignment to a field, and nothing
      for any other expression. */
  function NodeRecords(e: Expr, traitId: nat, q: Queries): (r: set<HirId>)
    ensures e.kind.Struct? ==>
      forall x :: x in r <==>
        exists i :: 0 <= i < |e.kind.fields| && e.kind.fields[i].expr.id == x && MayBeSmartPointer(x, traitId, q)
    ensures e.kind.Assign? ==>
      r == if e.kind.lhs.kind.Field? && MayBeSmartPointer(e.kind.rhs.id, traitId, q) then {e.kind.rhs.id} else {}
    ensures e.kind.Field? || e.kind.Other? ==> r == {}
  {
    match e.kind
    case Struct(fields, _) =>
      set i | 0 <= i < |fields| && MayBeSmartPointer(fields[i].expr.id, traitId, q) :: fields[i].expr.id
    case Assign(lhs, rhs) =>
      if lhs.kind.Field? && MayBeSmartPointer(rhs.id, traitId, q) then {rhs.id} else {}
    case Field(_, _) => {}
    case Other(_) => {}
  }

  /** Inserts ids into the recorded fields. */
  function RecordFields(v: DumpVisitor, ids: set<HirId>): DumpVisitor {
    v.(specialTypes := v.specialTypes.(fields := v.specialTypes.fields + ids))
  }

  /** `visit_expr`: with no `MetaUpdate` trait it returns at once;
      otherwise it records what the node itself qualifies for and then
      walks the subexpressions, visiting each in turn. */
  function VisitExpr(v: DumpVisitor, e: Expr, q: Queries): (r: DumpVisitor)
    ensures r.traitId == v.traitId && r.specialTypes.types == v.specialTypes.types
    ensures v.specialTypes.fields <= r.specialTypes.fields
    ensures v.traitId.None? ==> r == v
    decreases e
  {
    match v.traitId
    case None => v
    case Some(traitId) =>
      var recorded := RecordFields(v, NodeRecords(e, traitId, q));
      match e.kind
      case Struct(fields, base) =>
        var afterFields := VisitFields(recorded, fields, q);
        if base.Some? then VisitExpr(afterFields, base.value, q) else afterFields
      case Assign(lhs, rhs) => VisitExpr(VisitExpr(recorded, lhs, q), rhs, q)
      case Field(receiver, _) => VisitExpr(recorded, receiver, q)
      case Other(children) => VisitExprs(recorded, children, q)
  }

  /** The field initialisers of a struct literal, in order. */
  function VisitFields(v: DumpVisitor, fields: seq<ExprField>, q: Queries): (r: DumpVisitor)
    ensures r.traitId == v.traitId && r.specialTypes.types == v.specialTypes.types
    ensures v.specialTypes.fields <= r.specialTypes.fields
    ensures v.traitId.None? ==> r == v
    decreases fields
  {
    if |fields| == 0 then v
    else VisitFields(VisitExpr(v, fields[0].expr, q), fields[1..], q)
  }

  /** A sequence of sibling expressions, in order. */
  function VisitExprs(v: DumpVisitor, es: seq<Expr>, q: Queries): (r: DumpVisitor)
    ensures r.traitId == v.traitId && r.specialTypes.types == v.specialTypes.types
    ensures v.specialTypes.fields <= r.specialTypes.fields
    ensures v.traitId.None? ==> r == v
    decreases es
  {
    if |es| == 0 then v
    else VisitExprs(VisitExpr(v, es[0], q), es[1..], q)
  }

  /** Everything a walk of `e` records, as a union over its nodes: the
      visiting order does not matter. */
  function Records(e: Expr, traitId: nat, q: Queries): set<HirId>
    decreases e
  {
    NodeRecords(e, traitId, q) +
    match e.kind
    case Struct(fields, base) =>
      FieldsRecords(fields, traitId, q) + (if base.Some? then Records(base.value, traitId, q) else {})
    case Assign(lhs, rhs) => Records(lhs, traitId, q) + Records(rhs, traitId, q)
    case Field(receiver, _) => Records(receiver, traitId, q)
    case Other(children) => ExprsRecords(children, traitId, q)
  }

  function FieldsRecords(fields: seq<ExprField>, traitId: nat, q: Queries): set<HirId>
    decreases fields
  {
    if |fields| == 0 then {} else Records(fields[0].expr, traitId, q) + FieldsRecords(fields[1..], traitId, q)
  }

  function ExprsRecords(es: seq<Expr>, traitId: nat, q: Queries): set<HirId>
    decreases es
  {
    if |es| == 0 then {} else Records(es[0], traitId, q) + ExprsRecords(es[1..], traitId, q)
  }

  /** Visiting adds exactly the union of what the nodes of `e` record. */
  lemma {:induction false} VisitExprRecords(v: DumpVisitor, e: Expr, q: Queries)
    requires v.traitId.Some?
    ensures VisitExpr(v, e, q).specialTypes.fields == v.specialTypes.fields + Records(e, v.traitId.value, q)
    decreases e
  {
    var t := v.traitId.value;
    var recorded := RecordFields(v, NodeRecords(e, t, q));
    match e.kind
    case Struct(fields, base) =>
      VisitFieldsRecords(recorded, fields, q);
      var afterFields := VisitFields(recorded, fields, q);
      if base.Some? {
        VisitExprRecords(afterFields, base.value, q);
      }
    case Assign(lhs, rhs) =>
      VisitExprRecords(recorded, lhs, q);
      VisitExprRecords(VisitExpr(recorded, lhs, q), rhs, q);
    case Field(receiver, _) =>
      VisitExprRecords(recorded, receiver, q);
    case Other(children) =>
      VisitExprsRecords(recorded, children, q);
  }

  lemma {:induction false} VisitFieldsRecords(v: DumpVisitor, fields: seq<ExprField>, q: Queries)
    requires v.traitId.Some?
    ensures VisitFields(v, fields, q).specialTypes.fields == v.specialTypes.fields + FieldsRecords(fields, v.traitId.value, q)
    decreases fields
  {
    if |fields| > 0 {
      VisitExprRecords(v, fields[0].expr, q);
      VisitFieldsRecords(VisitExpr(v, fields[0].expr, q), fields[1..], q);
    }
  }

  lemma {:induction false} VisitExprsRecords(v: DumpVisitor, es: seq<Expr>, q: Queries)
    requires v.traitId.Some?
    ensures VisitExprs(v, es, q).specialTypes.fields == v.specialTypes.fields + ExprsRecords(es, v.traitId.value, q)
    decreases es
  {
    if |es| > 0 {
      VisitExprRecords(v, es[0], q);
      VisitExprsRecords(VisitExpr(v, es[0], q), es[1..], q);
    }
  }

  /** Visiting the same expression twice records nothing new. */
  lemma VisitExprIdempotent(v: DumpVisitor, e: Expr, q: Queries)
    ensures VisitExpr(VisitExpr(v, e, q), e, q) == VisitExpr(v, e, q)
  {
    if v.traitId.Some? {
      var once := VisitExpr(v, e, q);
      VisitExprRecords(v, e, q);
      VisitExprRecords(once, e, q);
    }
  }

  /** The exported lists, as sets: the order of a hash set's iteration is
      unspecified. */
  function ExportedTypes(s: SpecialTypes): (r: set<MetaUpdateHirId>)
    ensures forall m :: m in r <==> ToHirId(m) in s.types
  {
    var r := set h | h in s.types :: NewMetaUpdateHirId(h);
    assert forall m :: m in r ==> ToHirId(m) in s.types by {
      forall m | m in r ensures ToHirId(m) in s.types {
        var h :| h in s.types && NewMetaUpdateHirId(h) == m;
        MetaUpdateHirIdRoundTrip(h, m);
      }
    }
    assert forall m :: ToHirId(m) in s.types ==> m in r by {
      forall m | ToHirId(m) in s.types ensures m in r {
        MetaUpdateHirIdRoundTrip(ToHirId(m), m);
      }
    }
    r
  }

  function ExportedFields(s: SpecialTypes): (r: set<MetaUpdateHirId>)
    ensures forall m :: m in r <==> ToHirId(m) in s.fields
  {
    var r := set h | h in s.fields :: NewMetaUpdateHirId(h);
    assert forall m :: m in r ==> ToHirId(m) in s.fields by {
      forall m | m in r ensures ToHirId(m) in s.fields {
        var h :| h in s.fields && NewMetaUpdateHirId(h) == m;
        MetaUpdateHirIdRoundTrip(h, m);
      }
    }
    assert forall m :: ToHirId(m) in s.fields ==> m in r by {
      forall m | ToHirId(m) in s.fields ensures m in r {
        MetaUpdateHirIdRoundTrip(ToHirId(m), m);
      }
    }
    r
  }

  /** `dump_metaupdate_special_types` without the file output: a fresh
      visitor walks every body of the crate in turn. */
  function DumpSpecialTypes(traits: seq<TraitDef>, bodies: seq<Expr>, q: Queries): (r: SpecialTypes)
    ensures r.types == {}
    ensures FindMetaUpdateTrait(traits).None? ==> r.fields == {}
    ensures FindMetaUpdateTrait(traits).Some? ==> r.fields == ExprsRecords(bodies, FindMetaUpdateTrait(traits).value, q)
  {
    var v := New(traits);
    var r := VisitExprs(v, bodies, q).specialTypes;
    assert v.traitId.Some? ==> r.fields == ExprsRecords(bodies, v.traitId.value, q) by {
      if v.traitId.Some? {
        VisitExprsRecords(v, bodies, q);
      }
    }
    r
  }

  /** The `types` list is always exported empty. */
  lemma ExportedTypesEmpty(traits: seq<TraitDef>, bodies: seq<Expr>, q: Queries)
    ensures ExportedTypes(DumpSpecialTypes(traits, bodies, q)) == {}
  {
  }
}
