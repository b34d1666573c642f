/** References to types and their comparison (slake/type.h, slake/type.cc, slake/runtime.cc). */
module TypeRefs {

  /** The types that have no definition. */
  datatype PlainId = Invalid | Void | I8 | I16 | I32 | I64 | ISize | U8 | U16 | U32 | U64 | USize | F32 | F64 | Bool
                   | ObjectId | String | Any | Unknown

  /** The types that have one. */
  datatype DefinedId = Instance | StructInstance | ScopedEnum | TypelessScopedEnum | UnionEnum | UnionEnumItem
                     | GenericArgId | ArrayId | RefId | TempRef | TupleId | SimdId | FnId | ParamTypeListId
                     | UnpackingId

  datatype Type<D> = Plain(plainId: PlainId) | Defined(definedId: DefinedId, definition: D)

  /** A type with its modifiers; a definition is given by its address. */
  datatype TypeRef = TypeRef(t: Type<nat>, modifier: nat)

  /** Where the type is in the enumeration TypeId. */
  function Number<D>(t: Type<D>): nat {
    match t
    case Plain(id) => PlainNumber(id)
    case Defined(id, _) => DefinedNumber(id)
  }

  function PlainNumber(id: PlainId): nat {
    match id
    case Invalid => 0 case Void => 1
    case I8 => 2 case I16 => 3 case I32 => 4 case I64 => 5 case ISize => 6
    case U8 => 7 case U16 => 8 case U32 => 9 case U64 => 10 case USize => 11
    case F32 => 12 case F64 => 13 case Bool => 14
    case ObjectId => 15 case String => 16
    case Any => 32 case Unknown => 33
  }

  function DefinedNumber(id: DefinedId): nat {
    match id
    case Instance => 17 case StructInstance => 18
    case ScopedEnum => 19 case TypelessScopedEnum => 20 case UnionEnum => 21 case UnionEnumItem => 22
    case GenericArgId => 23 case ArrayId => 24 case RefId => 25 case TempRef => 26 case TupleId => 27 case SimdId => 28
    case FnId => 29 case ParamTypeListId => 30 case UnpackingId => 31
  }

  /** Every type without a definition but the invalid one. */
  predicate IsBasic<D>(t: Type<D>) {
    t.Plain? && t.plainId != Invalid
  }

  /** The pointer to the definition, which is null if there is none. */
  function Address(t: Type<nat>): nat {
    if t.Defined? then t.definition else 0
  }

  function CompareTypes(l: TypeRef, r: TypeRef): int {
    if Number(l.t) < Number(r.t) then -1
    else if Number(l.t) > Number(r.t) then 1
    else if l.modifier < r.modifier then -1
    else if l.modifier > r.modifier then 1
    else if IsBasic(l.t) then 0
    else if Address(l.t) < Address(r.t) then -1
    else if Address(l.t) > Address(r.t) then 1
    else 0
  }

  lemma NumbersDiffer<D>(l: Type<D>, r: Type<D>)
    requires Number(l) == Number(r)
    ensures l.Plain? <==> r.Plain?
    ensures l.Plain? ==> l == r
    ensures l.Defined? ==> l.definedId == r.definedId
  {
  }

  /** Nothing tells two types apart exactly when they are the same, definitions and modifiers included: two
      classes are two types. */
  lemma SameTypesExactly(l: TypeRef, r: TypeRef)
    ensures CompareTypes(l, r) == 0 <==> l == r
    ensures CompareTypes(l, r) == -CompareTypes(r, l)
  {
    if Number(l.t) == Number(r.t) {
      NumbersDiffer(l.t, r.t);
    }
    hide PlainNumber, DefinedNumber;
  }

  lemma TypesOrdered(a: TypeRef, b: TypeRef, c: TypeRef)
    ensures CompareTypes(a, b) <= 0 && CompareTypes(b, c) <= 0 ==>
              CompareTypes(a, c) <= 0 && (CompareTypes(a, b) < 0 || CompareTypes(b, c) < 0 ==> CompareTypes(a, c) < 0)
  {
    if Number(a.t) == Number(b.t) {
      NumbersDiffer(a.t, b.t);
    }
    if Number(b.t) == Number(c.t) {
      NumbersDiffer(b.t, c.t);
    }
    hide PlainNumber, DefinedNumber;
  }
}
