/** The comparator on type definitions in the heap, and the set of interned ones
    (slake/obj/typedef.cc, slake/runtime.cc). */
module GcTypeDefs {
  import opened SeqOps
  import opened GcObject
  import opened TypeRefs
  import opened TypeDefs
  import opened TypeSearch

  /** The type definition and everything that comparing it dereferences has not been deallocated. */
  ghost predicate Legible(t: Object, heap: set<Object>)
    reads heap`freed
  {
    t in heap && t.payload.Definition? && !t.freed && forall r :: r in ReadWith(t) ==> r in heap && !r.freed
  }

  method LoadTypeRef(o: Object) returns (t: TypeRef)
    requires !o.freed
    ensures t == TypeRefAt(o)
  {
    t := TypeRefAt(o);
  }

  method LoadName(o: Object) returns (name: string)
    requires !o.freed
    ensures name == NameAt(o)
  {
    name := NameAt(o);
  }

  method LoadTypeObject(o: Object) returns (t: TypeObject)
    requires !o.freed
    ensures t == TypeObjectAt(o)
  {
    t := TypeObjectAt(o);
  }

  method CompareHeapTypes(l: Object, r: Object) returns (c: Order)
    requires !l.freed && !r.freed
    ensures c == CompareTypeRefs(TypeRefAt(l), TypeRefAt(r))
  {
    var lt := LoadTypeRef(l);
    var rt := LoadTypeRef(r);
    c := CompareTypeRefs(lt, rt);
  }

  /** The elements of l in turn, against those of r. */
  method CompareHeapElements(l: seq<Object>, r: seq<Object>) returns (c: Order)
    requires forall o :: o in l || o in r ==> !o.freed
    ensures c == CompareElements(TypeRefsAt(l), TypeRefsAt(r), 0)
  {
    for i := 0 to |l|
      invariant CompareElements(TypeRefsAt(l), TypeRefsAt(r), 0) == CompareElements(TypeRefsAt(l), TypeRefsAt(r), i)
    {
      if i >= |r| {
        return Beyond;
      }
      c := CompareHeapTypes(l[i], r[i]);
      if c != Same {
        return c;
      }
    }
    return Same;
  }

  method CompareHeapLists(l: seq<Object>, r: seq<Object>) returns (c: Order)
    requires forall o :: o in l || o in r ==> !o.freed
    ensures c == CompareLists(TypeRefsAt(l), TypeRefsAt(r))
  {
    if |l| < |r| {
      return Less;
    }
    if |l| > |r| {
      return Greater;
    }
    c := CompareHeapElements(l, r);
  }

  /** The comparator dereferences nothing but what is legible. */
  method CompareTypeDefs(l: Object, r: Object, ghost heap: set<Object>) returns (c: Order)
    requires Legible(l, heap) && Legible(r, heap)
    ensures c == Compare(DefOf(l.payload.def), DefOf(r.payload.def))
  {
    hide CompareTypeRefs, CompareElements, CompareLists, CompareNames, CompareIdRefs;
    var (ld, rd) := (l.payload.def, r.payload.def);
    if KindOf(ld) < KindOf(rd) {
      return Less;
    }
    if KindOf(ld) > KindOf(rd) {
      return Greater;
    }
    assert forall s: seq<Object>, o :: o in s ==> o in Elems(s);
    match ld {
      case Custom(o) =>
        var lo := LoadTypeObject(o);
        var ro := LoadTypeObject(rd.typeObject);
        c := CompareTypeObjects(lo, ro);
      case Array(t) => c := CompareHeapTypes(t, rd.elementType);
      case Ref(t) => c := CompareHeapTypes(t, rd.referencedType);
      case GenericArg(owner, name) =>
        c := CompareNumbers(owner.address, rd.owner.address);
        if c == Same {
          var ln := LoadName(name);
          var rn := LoadName(rd.name);
          c := CompareNames(ln, rn);
        }
      case Fn(t, params, v) =>
        c := CompareHeapTypes(t, rd.returnType);
        if c == Same {
          c := CompareHeapLists(params, rd.paramTypes);
        }
        if c == Same {
          c := CompareNumbers(Flag(v), Flag(rd.hasVarArg));
        }
      case ParamTypeList(params, v) =>
        c := CompareHeapLists(params, rd.paramTypes);
        if c == Same {
          c := CompareNumbers(Flag(v), Flag(rd.hasVarArg));
        }
      case Tuple(elements) => c := CompareHeapElements(elements, rd.elementTypes);
      case Simd(t, w) =>
        c := CompareNumbers(t.address, rd.laneType.address);
        if c == Same {
          c := CompareNumbers(w, rd.width);
        }
      case Unpacking(t) => c := CompareNumbers(t.address, rd.packType.address);
    }
  }

  // ----- What the comparator calls the same, in the heap

  /** Two heap types hold the same type: of a plain one nothing more, of any other the same definition. */
  ghost predicate HoldSame(t: Object, u: Object) {
    && t.payload.HeapType? && u.payload.HeapType? && t.payload.modifier == u.payload.modifier
    && match (t.payload.held, u.payload.held)
       case (Plain(i), Plain(j)) => i == j
       case (Defined(i, d), Defined(j, e)) =>
         i == j && (if d == null then 0 else d.address) == (if e == null then 0 else e.address)
       case _ => false
  }

  ghost predicate AllHoldSame(ts: seq<Object>, us: seq<Object>) {
    |ts| == |us| && forall i :: 0 <= i < |ts| ==> HoldSame(ts[i], us[i])
  }

  /** As it is made in the source: types are heap types, names are strings. */
  ghost predicate WellMade(d: PointerDef) {
    match d
    case Custom(o) => o.payload.OtherPayload? ==> o.payload.objectKind > 3 && o.payload.objectKind != ID_REF_KIND
    case Array(t) => t.payload.HeapType?
    case Ref(t) => t.payload.HeapType?
    case GenericArg(_, name) => name.payload.Text?
    case Fn(t, params, _) => t.payload.HeapType? && forall p :: p in params ==> p.payload.HeapType?
    case ParamTypeList(params, _) => forall p :: p in params ==> p.payload.HeapType?
    case Tuple(elements) => forall p :: p in elements ==> p.payload.HeapType?
    case Simd(_, _) => true
    case Unpacking(_) => true
  }

  /** What makes two definitions the same: the same types, names, owners and objects, where a reference by name
      counts by what it says, and any other object of one kind by its address. */
  ghost predicate SameMaking(d: PointerDef, e: PointerDef) {
    match (d, e)
    case (Custom(o), Custom(p)) =>
      if o.payload.ByName? then p.payload.ByName? && o.payload.idRef == p.payload.idRef
      else !p.payload.ByName? && o.address == p.address && SameKind(o.payload, p.payload)
    case (Array(t), Array(u)) => HoldSame(t, u)
    case (Ref(t), Ref(u)) => HoldSame(t, u)
    case (GenericArg(o, n), GenericArg(p, m)) => o.address == p.address && n.payload == m.payload
    case (Fn(t, ts, v), Fn(u, us, w)) => HoldSame(t, u) && AllHoldSame(ts, us) && v == w
    case (ParamTypeList(ts, v), ParamTypeList(us, w)) => AllHoldSame(ts, us) && v == w
    case (Tuple(ts), Tuple(us)) => AllHoldSame(ts, us)
    case (Simd(t, w), Simd(u, x)) => t.address == u.address && w == x
    case (Unpacking(t), Unpacking(u)) => t.address == u.address
    case _ => false
  }

  ghost predicate SameKind(a: Payload, b: Payload) {
    match (a, b)
    case (Text(_), Text(_)) => true
    case (HeapType(_, _), HeapType(_, _)) => true
    case (Definition(_), Definition(_)) => true
    case (OtherPayload(k), OtherPayload(l)) => k == l
    case _ => false
  }

  lemma HoldSameIs(t: Object, u: Object)
    requires t.payload.HeapType? && u.payload.HeapType?
    ensures TypeRefAt(t) == TypeRefAt(u) <==> HoldSame(t, u)
  {
  }

  lemma AllHoldSameIs(ts: seq<Object>, us: seq<Object>)
    requires forall p :: p in ts || p in us ==> p.payload.HeapType?
    ensures TypeRefsAt(ts) == TypeRefsAt(us) <==> AllHoldSame(ts, us)
  {
    hide HoldSame, TypeRefAt;
    if |ts| == |us| {
      forall i | 0 <= i < |ts|
        ensures TypeRefsAt(ts)[i] == TypeRefsAt(us)[i] <==> HoldSame(ts[i], us[i])
      {
        HoldSameIs(ts[i], us[i]);
      }
      assert (forall i :: 0 <= i < |ts| ==> TypeRefsAt(ts)[i] == TypeRefsAt(us)[i])
             <==> TypeRefsAt(ts) == TypeRefsAt(us);
    } else {
      assert |TypeRefsAt(ts)| == |ts| && |TypeRefsAt(us)| == |us|;
    }
  }

  /** The comparator calls two definitions in the heap the same exactly when they are made the same, or when one
      is a tuple of at least one element less that begins the other: the array types of two classes are two. */
  lemma SameInHeapExactly(l: Object, r: Object)
    requires l.payload.Definition? && r.payload.Definition? && WellMade(l.payload.def) && WellMade(r.payload.def)
    ensures Compare(DefOf(l.payload.def), DefOf(r.payload.def)) == Same <==>
              || SameMaking(l.payload.def, r.payload.def)
              || (l.payload.def.Tuple? && r.payload.def.Tuple?
                  && var (ts, us) := (l.payload.def.elementTypes, r.payload.def.elementTypes);
                     |ts| < |us| && AllHoldSame(ts, us[..|ts|]))
  {
    var (d, e) := (l.payload.def, r.payload.def);
    SameExactly(DefOf(d), DefOf(e));
    hide Compare, HoldSame, AllHoldSame, TypeRefAt, TypeRefsAt;
    if KindOf(d) == KindOf(e) {
      match d {
        case Custom(_) =>
        case Array(t) => HoldSameIs(t, e.elementType);
        case Ref(t) => HoldSameIs(t, e.referencedType);
        case GenericArg(_, _) =>
        case Fn(t, params, _) =>
          HoldSameIs(t, e.returnType);
          AllHoldSameIs(params, e.paramTypes);
        case ParamTypeList(params, _) => AllHoldSameIs(params, e.paramTypes);
        case Tuple(elements) =>
          AllHoldSameIs(elements, e.elementTypes);
          if |elements| < |e.elementTypes| {
            AllHoldSameIs(elements, e.elementTypes[..|elements|]);
            BeginsAt(elements, e.elementTypes);
          }
        case Simd(_, _) =>
        case Unpacking(_) =>
      }
    }
  }

  lemma BeginsAt(ts: seq<Object>, us: seq<Object>)
    requires |ts| < |us|
    ensures Begins(TypeDefs.Tuple(TypeRefsAt(ts)), TypeDefs.Tuple(TypeRefsAt(us))) <==>
              TypeRefsAt(ts) == TypeRefsAt(us[..|ts|])
  {
    hide TypeRefAt;
    assert |TypeRefsAt(ts)| == |ts| && |TypeRefsAt(us)| == |us| && |TypeRefsAt(us[..|ts|])| == |ts|;
    assert forall i :: 0 <= i < |ts| ==> TypeRefsAt(us[..|ts|])[i] == TypeRefsAt(us)[i];
  }

  // ----- The interned definitions

  /** The ordered set of interned definitions, by what the comparator reads of them. */
  type TypeTable = map<Reading, Object>

  /** What a search for t may read: t, the entries of the table, and what they refer to. */
  ghost predicate Comparable(table: TypeTable, t: Object, heap: set<Object>)
    reads heap`freed
  {
    && (forall key :: key in table ==> Legible(table[key], heap) && table[key].typeKey == key)
    && Legible(t, heap) && PairwiseApart(table.Keys)
  }

  /** The comparator orders t among the entries of the table. */
  predicate Placeable(table: TypeTable, key: Reading) {
    ApartFrom(table.Keys, key)
  }

  lemma ComparedByKey(l: Object, r: Object)
    requires l.payload.Definition? && r.payload.Definition?
    ensures Apart(l.typeKey, r.typeKey) <==>
            && Compare(DefOf(l.payload.def), DefOf(r.payload.def)) != Beyond
            && Compare(DefOf(r.payload.def), DefOf(l.payload.def)) != Beyond
    ensures Apart(l.typeKey, r.typeKey) ==>
            (Compare(DefOf(l.payload.def), DefOf(r.payload.def)) == Same <==> l.typeKey == r.typeKey)
  {
    hide Compare, Lex, Read, DefOf;
    CompareIsLex(DefOf(l.payload.def), DefOf(r.payload.def));
    CompareIsLex(DefOf(r.payload.def), DefOf(l.payload.def));
    LexMeans(l.typeKey, r.typeKey);
    LexMeans(r.typeKey, l.typeKey);
  }

  /** Looks for an entry that compares the same as t on the one path down the tree, and compares one way
      round. It answers rightly exactly when the comparator orders t among all entries. */
  method Search(table: TypeTable, tree: Tree, entryFirst: bool, t: Object, ghost heap: set<Object>)
    returns (answer: Answer)
    requires Comparable(table, t, heap) && Sorted(tree) && Keys(tree) == table.Keys
    ensures answer == Descend(tree, t.typeKey, entryFirst)
    ensures answer == Rightly(table.Keys, t.typeKey) <==> Placeable(table, t.typeKey)
    ensures !Placeable(table, t.typeKey) ==> Misled(table.Keys, t.typeKey, answer)
  {
    hide Compare, Lex, Read, DefOf, Apart, ProperPrefix;
    DescendsExactly(tree, t.typeKey, entryFirst);
    var sub := tree;
    while sub.Node?
      invariant Keys(sub) <= table.Keys
      invariant Descend(sub, t.typeKey, entryFirst) == Descend(tree, t.typeKey, entryFirst)
      decreases sub
    {
      var entry := table[sub.key];
      CompareIsLex(DefOf(t.payload.def), DefOf(entry.payload.def));
      CompareIsLex(DefOf(entry.payload.def), DefOf(t.payload.def));
      var c;
      if entryFirst {
        c := CompareTypeDefs(entry, t, heap);
        c := Opposite(c);
      } else {
        c := CompareTypeDefs(t, entry, heap);
      }
      match c {
        case Less => sub := sub.left;
        case Greater => sub := sub.right;
        case Same => return Holds(sub.key);
        case Beyond => return PastEnd;
      }
    }
    return Nothing;
  }

  /** What there is to find, if the comparator orders t among the entries; otherwise there is something. */
  lemma Answered(table: TypeTable, t: Object, heap: set<Object>, answer: Answer)
    requires Comparable(table, t, heap)
    requires answer == Rightly(table.Keys, t.typeKey) <==> Placeable(table, t.typeKey)
    requires !Placeable(table, t.typeKey) ==> Misled(table.Keys, t.typeKey, answer)
    ensures answer == Nothing <==> Placeable(table, t.typeKey) && t.typeKey !in table
    ensures Placeable(table, t.typeKey) ==>
              && answer != PastEnd
              && (answer.Holds? <==>
                    exists k :: k in table && Compare(DefOf(t.payload.def), DefOf(table[k].payload.def)) == Same)
    ensures answer.Holds? && t.typeKey !in table ==>
              exists k :: k in table && (ProperPrefix(k, t.typeKey) || ProperPrefix(t.typeKey, k))
  {
    hide Compare, Lex, Read, DefOf, Apart, ProperPrefix;
    forall k | k in table && Placeable(table, t.typeKey)
      ensures Compare(DefOf(t.payload.def), DefOf(table[k].payload.def)) == Same <==> k == t.typeKey
    {
      ComparedByKey(table[k], t);
      ComparedByKey(t, table[k]);
    }
  }

  /** Takes the definition that the search finds out of the set: the one that compares the same as t, if the
      comparator orders t among the entries, and otherwise one of another reading, or none. */
  method UnregisterTypeDef(table: TypeTable, t: Object, ghost heap: set<Object>)
    returns (answer: Answer, newTable: TypeTable)
    requires Comparable(table, t, heap)
    ensures answer == Rightly(table.Keys, t.typeKey) <==> Placeable(table, t.typeKey)
    ensures !Placeable(table, t.typeKey) ==> Misled(table.Keys, t.typeKey, answer)
    ensures newTable == if answer.Holds? then table - {answer.key} else table
    ensures Placeable(table, t.typeKey) ==> newTable == table - {t.typeKey}
    ensures Placeable(table, t.typeKey) ==> forall k :: k in newTable <==>
              k in table && Compare(DefOf(t.payload.def), DefOf(table[k].payload.def)) != Same
  {
    hide Compare, Lex, Read, DefOf, Apart, ProperPrefix, Misled;
    var tree := Arrange(table.Keys);
    var entryFirst: bool := *;
    answer := Search(table, tree, entryFirst, t, heap);
    newTable := if answer.Holds? then table - {answer.key} else table;
    forall k | k in table && Placeable(table, t.typeKey)
      ensures Compare(DefOf(t.payload.def), DefOf(table[k].payload.def)) == Same <==> k == t.typeKey
    {
      ComparedByKey(table[k], t);
      ComparedByKey(t, table[k]);
    }
  }
}
