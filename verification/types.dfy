/** The part of the compiler's type representation that the modelled passes
    look at. Everything else about a type is reached only through oracles
    (function-valued parameters) supplied by the caller. */
module Types {

  /** A type, reduced to its kind; the payloads keep the structure the
      passes inspect (the pointee of a raw pointer, the substitutions of an
      ADT) and an opaque identifier for everything else. */
  datatype Ty =
    | Bool
    | Char
    | Int
    | Uint
    | Float
    | Str
    | Never
    | Adt(def: nat, substs: seq<Ty>)
    | Array(elem: Ty, len: nat)
    | Slice(elem: Ty)
    | RawPtr(pointee: Ty)
    | Ref(pointee: Ty)
    | Tuple(elems: seq<Ty>)
    | FnDef(def: nat)
    | FnPtr
    | Closure(def: nat)
    | Dynamic(principal: nat)
    | Param(index: nat)
}
