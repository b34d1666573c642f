/** Type definitions and the comparator that interns them (slake/obj/typedef.cc, slake/obj/idref.cc). */
module TypeDefs {
  import opened TypeRefs
  import opened Wrappers

  /** One element of a reference by name. */
  datatype IdEntry = IdEntry(name: string, args: seq<TypeRef>)

  datatype IdRef = IdRef(entries: seq<IdEntry>, params: Option<seq<TypeRef>>, hasVarArgs: bool)

  /** The position of IdRef in the enumeration ObjectKind. */
  const ID_REF_KIND := 18

  /** The object a custom definition names: its kind, its address, and the reference if it is one. */
  datatype TypeObject = TypeObject(kind: nat, address: nat, idRef: IdRef)

  /** The nine kinds of definitions, given how to say which object, which type, which name, and which
      named object: by pointers in the heap, by what is found there for the comparator. */
  datatype TypeDef<P, T, N, C> =
    | Custom(typeObject: C)
    | Array(elementType: T)
    | Ref(referencedType: T)
    | GenericArg(owner: P, name: N)
    | Fn(returnType: T, paramTypes: seq<T>, hasVarArg: bool)
    | ParamTypeList(paramTypes: seq<T>, hasVarArg: bool)
    | Tuple(elementTypes: seq<T>)
    | Simd(laneType: P, width: nat)
    | Unpacking(packType: P)

  type Def = TypeDef<nat, TypeRef, string, TypeObject>

  function KindOf<P, T, N, C>(d: TypeDef<P, T, N, C>): nat {
    match d
    case Custom(_) => 0
    case Array(_) => 1
    case Ref(_) => 2
    case GenericArg(_, _) => 3
    case Fn(_, _, _) => 4
    case ParamTypeList(_, _) => 5
    case Tuple(_) => 6
    case Simd(_, _) => 7
    case Unpacking(_) => 8
  }

  // ----- The comparator

  /** Beyond: an element past the end of the right-hand side is read. */
  datatype Order = Less | Same | Greater | Beyond

  function Then(first: Order, second: Order): Order {
    if first == Same then second else first
  }

  function CompareNumbers(l: int, r: int): Order {
    if l < r then Less else if l > r then Greater else Same
  }

  function Flag(b: bool): nat {
    if b then 1 else 0
  }

  function CompareTypeRefs(l: TypeRef, r: TypeRef): Order {
    CompareNumbers(CompareTypes(l, r), 0)
  }

  /** Names are compared character by character; a name that begins another comes first. */
  function CompareNames(l: string, r: string): Order {
    if l == [] then (if r == [] then Same else Less)
    else if r == [] then Greater
    else Then(CompareNumbers(l[0] as int, r[0] as int), CompareNames(l[1..], r[1..]))
  }

  /** The elements from i on, as far as l goes. */
  function CompareElements(l: seq<TypeRef>, r: seq<TypeRef>, i: nat): Order
    decreases |l| - i
  {
    if i >= |l| then Same
    else if i >= |r| then Beyond
    else Then(CompareTypeRefs(l[i], r[i]), CompareElements(l, r, i + 1))
  }

  function CompareLists(l: seq<TypeRef>, r: seq<TypeRef>): Order {
    Then(CompareNumbers(|l|, |r|), CompareElements(l, r, 0))
  }

  function CompareEntries(l: seq<IdEntry>, r: seq<IdEntry>, i: nat): Order
    requires |l| == |r|
    decreases |l| - i
  {
    if i >= |l| then Same
    else Then(CompareNames(l[i].name, r[i].name), Then(CompareLists(l[i].args, r[i].args), CompareEntries(l, r, i + 1)))
  }

  function CompareIdRefs(l: IdRef, r: IdRef): Order {
    if |l.entries| != |r.entries| then CompareNumbers(|l.entries|, |r.entries|)
    else
      Then(CompareEntries(l.entries, r.entries, 0),
           Then(CompareNumbers(Flag(l.params.Some?), Flag(r.params.Some?)),
                Then(if l.params.Some? && r.params.Some? then CompareLists(l.params.value, r.params.value) else Same,
                     CompareNumbers(Flag(l.hasVarArgs), Flag(r.hasVarArgs)))))
  }

  function CompareTypeObjects(l: TypeObject, r: TypeObject): Order {
    Then(CompareNumbers(l.kind, r.kind),
         if l.kind == ID_REF_KIND then CompareIdRefs(l.idRef, r.idRef) else CompareNumbers(l.address, r.address))
  }

  function Compare(l: Def, r: Def): Order {
    if KindOf(l) != KindOf(r) then CompareNumbers(KindOf(l), KindOf(r)) else
      match l
      case Custom(o) => CompareTypeObjects(o, r.typeObject)
      case Array(t) => CompareTypeRefs(t, r.elementType)
      case Ref(t) => CompareTypeRefs(t, r.referencedType)
      case GenericArg(owner, name) => Then(CompareNumbers(owner, r.owner), CompareNames(name, r.name))
      case Fn(t, params, v) =>
        Then(CompareTypeRefs(t, r.returnType),
             Then(CompareLists(params, r.paramTypes), CompareNumbers(Flag(v), Flag(r.hasVarArg))))
      case ParamTypeList(params, v) => Then(CompareLists(params, r.paramTypes),
          CompareNumbers(Flag(v), Flag(r.hasVarArg)))
      case Tuple(elements) => CompareElements(elements, r.elementTypes, 0)
      case Simd(t, w) => Then(CompareNumbers(t, r.laneType), CompareNumbers(w, r.width))
      case Unpacking(t) => CompareNumbers(t, r.packType)
  }

  // ----- Readings: what the comparator reads, as a row of numbers

  type Reading = seq<int>

  /** The order of the first numbers that differ. */
  function Lex(a: Reading, b: Reading): Order {
    if a == [] then Same
    else if b == [] then Beyond
    else Then(CompareNumbers(a[0], b[0]), Lex(a[1..], b[1..]))
  }

  function ReadType(t: TypeRef): Reading {
    [Number(t.t), t.modifier, Address(t.t)]
  }

  function ReadTypes(ts: seq<TypeRef>): Reading {
    if ts == [] then [] else ReadType(ts[0]) + ReadTypes(ts[1..])
  }

  function ReadList(ts: seq<TypeRef>): Reading {
    [|ts|] + ReadTypes(ts)
  }

  function ReadName(s: string): Reading {
    if s == [] then [0] else [s[0] as int + 1] + ReadName(s[1..])
  }

  function ReadEntries(es: seq<IdEntry>): Reading {
    if es == [] then [] else ReadName(es[0].name) + (ReadList(es[0].args) + ReadEntries(es[1..]))
  }

  function ReadIdRef(r: IdRef): Reading {
    [|r.entries|] + (ReadEntries(r.entries)
      + ([Flag(r.params.Some?)] + ((if r.params.Some? then ReadList(r.params.value) else []) + [Flag(r.hasVarArgs)])))
  }

  function ReadTypeObject(o: TypeObject): Reading {
    [o.kind] + if o.kind == ID_REF_KIND then ReadIdRef(o.idRef) else [o.address]
  }

  function ReadParts(d: Def): Reading {
    match d
    case Custom(o) => ReadTypeObject(o)
    case Array(t) => ReadType(t)
    case Ref(t) => ReadType(t)
    case GenericArg(owner, name) => [owner] + ReadName(name)
    case Fn(t, params, v) => ReadType(t) + (ReadList(params) + [Flag(v)])
    case ParamTypeList(params, v) => ReadList(params) + [Flag(v)]
    case Tuple(elements) => ReadTypes(elements)
    case Simd(t, w) => [t] + [w]
    case Unpacking(t) => [t]
  }

  function Read(d: Def): Reading {
    [KindOf(d)] + ReadParts(d)
  }

  // ----- The comparator is the order of readings

  /** o is the order of a and b, neither of which properly begins the other. */
  ghost predicate Decides(o: Order, a: Reading, b: Reading) {
    (o == Same <==> a == b) && (o != Same ==> o != Beyond && Lex(a, b) == o && Lex(b, a) == Opposite(o))
  }

  function Opposite(o: Order): Order {
    match o
    case Less => Greater
    case Greater => Less
    case _ => o
  }

  lemma {:induction false} LexSelf(a: Reading)
    ensures Lex(a, a) == Same
  {
    if a != [] {
      LexSelf(a[1..]);
    }
  }

  /** A decided part decides the whole, or leaves it to the rest. */
  lemma {:induction false} LexConcat(a: Reading, b: Reading, c: Reading, d: Reading)
    ensures a == c ==> Lex(a + b, c + d) == Lex(b, d)
    ensures Lex(a, c) == Less || Lex(a, c) == Greater ==> Lex(a + b, c + d) == Lex(a, c)
  {
    if a == [] {
      assert a + b == b;
      assert a == c ==> c + d == d;
    } else if c != [] {
      assert (a + b)[1..] == a[1..] + b && (c + d)[1..] == c[1..] + d;
      LexConcat(a[1..], b, c[1..], d);
    }
  }

  lemma DecideNext(o: Order, a: Reading, b: Reading, p: Order, c: Reading, d: Reading)
    requires Decides(o, a, b) && (o == Same ==> Decides(p, c, d))
    ensures Decides(Then(o, p), a + c, b + d)
  {
    LexConcat(a, c, b, d);
    LexConcat(b, d, a, c);
    if o == Same {
      assert a + c == b + d <==> c == d by {
        assert (a + c)[|a|..] == c && (b + d)[|b|..] == d;
      }
    } else if a + c == b + d {
      LexSelf(a + c);
    }
  }

  lemma NumberDecides(l: int, r: int)
    ensures Decides(CompareNumbers(l, r), [l], [r])
  {
  }

  lemma TypeDecides(l: TypeRef, r: TypeRef)
    ensures Decides(CompareTypeRefs(l, r), ReadType(l), ReadType(r))
  {
    var (lp, rp, la, ra) := (Number(l.t), Number(r.t), Address(l.t), Address(r.t));
    NumberDecides(lp, rp);
    NumberDecides(l.modifier, r.modifier);
    NumberDecides(la, ra);
    var (o, p, q) := (CompareNumbers(lp, rp), CompareNumbers(l.modifier, r.modifier), CompareNumbers(la, ra));
    DecideNext(p, [l.modifier], [r.modifier], q, [la], [ra]);
    DecideNext(o, [lp], [rp], Then(p, q), [l.modifier] + [la], [r.modifier] + [ra]);
    assert ReadType(l) == [lp] + ([l.modifier] + [la]) && ReadType(r) == [rp] + ([r.modifier] + [ra]);
    if lp == rp {
      NumbersDiffer(l.t, r.t);
    }
    hide PlainNumber, DefinedNumber, Decides;
  }

  lemma {:induction false} NamesDecide(l: string, r: string)
    ensures Decides(CompareNames(l, r), ReadName(l), ReadName(r))
  {
    if l != [] && r != [] {
      NumberDecides(l[0] as int + 1, r[0] as int + 1);
      NamesDecide(l[1..], r[1..]);
      DecideNext(CompareNumbers(l[0] as int + 1, r[0] as int + 1), [l[0] as int + 1], [r[0] as int + 1],
                 CompareNames(l[1..], r[1..]), ReadName(l[1..]), ReadName(r[1..]));
    }
  }

  lemma ReadTypesFrom(ts: seq<TypeRef>, i: nat)
    requires i < |ts|
    ensures ReadTypes(ts[i..]) == ReadType(ts[i]) + ReadTypes(ts[i + 1..])
  {
    assert ts[i..][1..] == ts[i + 1..];
  }

  lemma {:induction false} ElementsDecide(l: seq<TypeRef>, r: seq<TypeRef>, i: nat)
    requires |l| == |r| && i <= |l|
    ensures Decides(CompareElements(l, r, i), ReadTypes(l[i..]), ReadTypes(r[i..]))
    decreases |l| - i
  {
    if i < |l| {
      TypeDecides(l[i], r[i]);
      ElementsDecide(l, r, i + 1);
      ReadTypesFrom(l, i);
      ReadTypesFrom(r, i);
      DecideNext(CompareTypeRefs(l[i], r[i]), ReadType(l[i]), ReadType(r[i]),
                 CompareElements(l, r, i + 1), ReadTypes(l[i + 1..]), ReadTypes(r[i + 1..]));
    }
  }

  lemma ListsDecide(l: seq<TypeRef>, r: seq<TypeRef>)
    ensures Decides(CompareLists(l, r), ReadList(l), ReadList(r))
  {
    NumberDecides(|l|, |r|);
    if |l| == |r| {
      ElementsDecide(l, r, 0);
      assert l[0..] == l && r[0..] == r;
    }
    DecideNext(CompareNumbers(|l|, |r|), [|l|], [|r|], CompareElements(l, r, 0), ReadTypes(l), ReadTypes(r));
  }

  lemma {:induction false} EntriesDecide(l: seq<IdEntry>, r: seq<IdEntry>, i: nat)
    requires |l| == |r| && i <= |l|
    ensures Decides(CompareEntries(l, r, i), ReadEntries(l[i..]), ReadEntries(r[i..]))
    decreases |l| - i
  {
    if i < |l| {
      NamesDecide(l[i].name, r[i].name);
      ListsDecide(l[i].args, r[i].args);
      EntriesDecide(l, r, i + 1);
      assert l[i..][1..] == l[i + 1..] && r[i..][1..] == r[i + 1..];
      DecideNext(CompareLists(l[i].args, r[i].args), ReadList(l[i].args), ReadList(r[i].args),
                 CompareEntries(l, r, i + 1), ReadEntries(l[i + 1..]), ReadEntries(r[i + 1..]));
      DecideNext(CompareNames(l[i].name, r[i].name), ReadName(l[i].name), ReadName(r[i].name),
                 Then(CompareLists(l[i].args, r[i].args), CompareEntries(l, r, i + 1)),
                 ReadList(l[i].args) + ReadEntries(l[i + 1..]), ReadList(r[i].args) + ReadEntries(r[i + 1..]));
    }
  }

  lemma IdRefsDecide(l: IdRef, r: IdRef)
    ensures Decides(CompareIdRefs(l, r), ReadIdRef(l), ReadIdRef(r))
  {
    hide Decides, Lex, CompareEntries, CompareLists, ReadEntries, ReadList;
    var (size, some, last) := (CompareNumbers(|l.entries|, |r.entries|),
                               CompareNumbers(Flag(l.params.Some?), Flag(r.params.Some?)),
                               CompareNumbers(Flag(l.hasVarArgs), Flag(r.hasVarArgs)));
    NumberDecides(|l.entries|, |r.entries|);
    NumberDecides(Flag(l.params.Some?), Flag(r.params.Some?));
    NumberDecides(Flag(l.hasVarArgs), Flag(r.hasVarArgs));
    var (lp, rp) := (if l.params.Some? then ReadList(l.params.value) else [], if r.params.Some?
        then ReadList(r.params.value) else []);
    var middle := if l.params.Some? && r.params.Some? then CompareLists(l.params.value, r.params.value) else Same;
    var rest := Then(some, Then(middle, last));
    var (lrest, rrest) := ([Flag(l.params.Some?)] + (lp + [Flag(l.hasVarArgs)]), [Flag(r.params.Some?)] +
        (rp + [Flag(r.hasVarArgs)]));
    if some == Same {
      if l.params.Some? {
        ListsDecide(l.params.value, r.params.value);
      } else {
        NothingDecides();
      }
      DecideNext(middle, lp, rp, last, [Flag(l.hasVarArgs)], [Flag(r.hasVarArgs)]);
    }
    DecideNext(some, [Flag(l.params.Some?)], [Flag(r.params.Some?)], Then(middle, last),
               lp + [Flag(l.hasVarArgs)], rp + [Flag(r.hasVarArgs)]);
    if |l.entries| == |r.entries| {
      EntriesDecide(l.entries, r.entries, 0);
      assert l.entries[0..] == l.entries && r.entries[0..] == r.entries;
      DecideNext(CompareEntries(l.entries, r.entries, 0), ReadEntries(l.entries), ReadEntries(r.entries), rest, lrest,
          rrest);
      DecideNext(size, [|l.entries|], [|r.entries|], Then(CompareEntries(l.entries, r.entries, 0), rest),
                 ReadEntries(l.entries) + lrest, ReadEntries(r.entries) + rrest);
    } else {
      DecideNext(size, [|l.entries|], [|r.entries|], Same, ReadEntries(l.entries) + lrest, ReadEntries(r.entries) +
          rrest);
    }
  }

  lemma NothingDecides()
    ensures Decides(Same, [], [])
  {
  }

  lemma TypeObjectsDecide(l: TypeObject, r: TypeObject)
    ensures Decides(CompareTypeObjects(l, r), ReadTypeObject(l), ReadTypeObject(r))
  {
    hide Decides, Lex, CompareIdRefs, ReadIdRef;
    NumberDecides(l.kind, r.kind);
    NumberDecides(l.address, r.address);
    IdRefsDecide(l.idRef, r.idRef);
    if l.kind == r.kind {
      DecideNext(CompareNumbers(l.kind, r.kind), [l.kind], [r.kind],
                 if l.kind == ID_REF_KIND then CompareIdRefs(l.idRef, r.idRef)
                     else CompareNumbers(l.address, r.address),
                 if l.kind == ID_REF_KIND then ReadIdRef(l.idRef) else [l.address],
                 if r.kind == ID_REF_KIND then ReadIdRef(r.idRef) else [r.address]);
    } else {
      DecideNext(CompareNumbers(l.kind, r.kind), [l.kind], [r.kind], Same,
                 if l.kind == ID_REF_KIND then ReadIdRef(l.idRef) else [l.address],
                 if r.kind == ID_REF_KIND then ReadIdRef(r.idRef) else [r.address]);
    }
  }

  /** Two definitions of one kind, unless they are tuples of different sizes. */
  lemma PartsDecide(l: Def, r: Def)
    requires KindOf(l) == KindOf(r) && (l.Tuple? ==> |l.elementTypes| == |r.elementTypes|)
    ensures Decides(Compare(l, r), ReadParts(l), ReadParts(r))
  {
    hide Decides, Lex, CompareTypeRefs, CompareNames, CompareLists, CompareElements, CompareTypeObjects;
    hide ReadType, ReadName, ReadList, ReadTypes, ReadTypeObject;
    match l
    case Custom(o) => TypeObjectsDecide(o, r.typeObject);
    case Array(t) => TypeDecides(t, r.elementType);
    case Ref(t) => TypeDecides(t, r.referencedType);
    case GenericArg(owner, name) =>
      NumberDecides(owner, r.owner);
      NamesDecide(name, r.name);
      DecideNext(CompareNumbers(owner, r.owner), [owner], [r.owner], CompareNames(name, r.name), ReadName(name),
          ReadName(r.name));
    case Fn(t, params, v) =>
      TypeDecides(t, r.returnType);
      SignaturesDecide(params, v, r.paramTypes, r.hasVarArg);
      DecideNext(CompareTypeRefs(t, r.returnType), ReadType(t), ReadType(r.returnType),
                 Then(CompareLists(params, r.paramTypes), CompareNumbers(Flag(v), Flag(r.hasVarArg))),
                 ReadList(params) + [Flag(v)], ReadList(r.paramTypes) + [Flag(r.hasVarArg)]);
    case ParamTypeList(params, v) => SignaturesDecide(params, v, r.paramTypes, r.hasVarArg);
    case Tuple(elements) =>
      ElementsDecide(elements, r.elementTypes, 0);
      assert elements[0..] == elements && r.elementTypes[0..] == r.elementTypes;
    case Simd(t, w) =>
      NumberDecides(t, r.laneType);
      NumberDecides(w, r.width);
      DecideNext(CompareNumbers(t, r.laneType), [t], [r.laneType], CompareNumbers(w, r.width), [w], [r.width]);
    case Unpacking(t) => NumberDecides(t, r.packType);
  }

  lemma SignaturesDecide(l: seq<TypeRef>, lv: bool, r: seq<TypeRef>, rv: bool)
    ensures Decides(Then(CompareLists(l, r), CompareNumbers(Flag(lv), Flag(rv))), ReadList(l) + [Flag(lv)],
              ReadList(r) + [Flag(rv)])
  {
    hide Decides, CompareLists, ReadList;
    ListsDecide(l, r);
    NumberDecides(Flag(lv), Flag(rv));
    DecideNext(CompareLists(l, r), ReadList(l), ReadList(r), CompareNumbers(Flag(lv), Flag(rv)), [Flag(lv)],
        [Flag(rv)]);
  }

  ghost predicate UnlikeTuples(l: Def, r: Def) {
    l.Tuple? && r.Tuple? && |l.elementTypes| != |r.elementTypes|
  }

  /** The elements of tuples, of whatever sizes. */
  lemma {:induction false} ElementsAreLex(l: seq<TypeRef>, r: seq<TypeRef>, i: nat)
    requires i <= |l| && i <= |r|
    ensures CompareElements(l, r, i) == Lex(ReadTypes(l[i..]), ReadTypes(r[i..]))
    decreases |l| - i
  {
    if i < |l| && i < |r| {
      TypeDecides(l[i], r[i]);
      ReadTypesFrom(l, i);
      ReadTypesFrom(r, i);
      LexConcat(ReadType(l[i]), ReadTypes(l[i + 1..]), ReadType(r[i]), ReadTypes(r[i + 1..]));
      ElementsAreLex(l, r, i + 1);
    } else if i < |l| {
      ReadTypesFrom(l, i);
    }
  }

  /** The comparator is the order of readings; it decides any two definitions but tuples of different sizes. */
  lemma CompareIsLex(l: Def, r: Def)
    ensures Compare(l, r) == Lex(Read(l), Read(r))
    ensures !UnlikeTuples(l, r) ==> Decides(Compare(l, r), Read(l), Read(r))
  {
    hide ReadParts, Lex;
    NumberDecides(KindOf(l), KindOf(r));
    if KindOf(l) != KindOf(r) {
      DecideNext(CompareNumbers(KindOf(l), KindOf(r)), [KindOf(l)], [KindOf(r)], Same, ReadParts(l), ReadParts(r));
    } else if UnlikeTuples(l, r) {
      TuplesAreLex(l, r);
    } else {
      PartsDecide(l, r);
      DecideNext(Same, [KindOf(l)], [KindOf(r)], Compare(l, r), ReadParts(l), ReadParts(r));
      LexSelf(Read(l));
    }
  }

  lemma TuplesAreLex(l: Def, r: Def)
    requires l.Tuple? && r.Tuple?
    ensures Compare(l, r) == Lex(Read(l), Read(r))
  {
    ElementsAreLex(l.elementTypes, r.elementTypes, 0);
    assert l.elementTypes[0..] == l.elementTypes && r.elementTypes[0..] == r.elementTypes;
    LexConcat([6], ReadParts(l), [6], ReadParts(r));
  }

  // ----- When the comparator is an order

  ghost predicate ProperPrefix(a: Reading, b: Reading) {
    |a| < |b| && a == b[..|a|]
  }

  /** Neither begins the other, unless they are the same. */
  predicate Apart(a: Reading, b: Reading) {
    Lex(a, b) != Beyond && Lex(b, a) != Beyond
  }

  /** An element is missing exactly when the right-hand side begins the left-hand one; nothing differs
      exactly when the left-hand side begins the right-hand one, or is the same. */
  lemma {:induction false} LexMeans(a: Reading, b: Reading)
    ensures Lex(a, b) == Beyond <==> ProperPrefix(b, a)
    ensures Lex(a, b) == Same <==> ProperPrefix(a, b) || a == b
    ensures Lex(a, b) == Less <==> Lex(b, a) == Greater
  {
    if a != [] && b != [] {
      LexMeans(a[1..], b[1..]);
      LexRest(a, b);
      LexRest(b, a);
    }
  }

  lemma LexRest(a: Reading, b: Reading)
    requires a != [] && b != []
    ensures ProperPrefix(b, a) <==> a[0] == b[0] && ProperPrefix(b[1..], a[1..])
    ensures a == b <==> a[0] == b[0] && a[1..] == b[1..]
  {
    assert a == [a[0]] + a[1..] && b == [b[0]] + b[1..];
    if |b| < |a| {
      assert a[..|b|][1..] == a[1..][..|b| - 1];
      assert a[..|b|] == [a[0]] + a[1..][..|b| - 1];
    }
  }

  lemma {:induction false} LexTransitive(a: Reading, b: Reading, c: Reading)
    requires Lex(a, b) == Less && Lex(b, c) == Less
    ensures Lex(a, c) == Less
  {
    if a[0] == b[0] == c[0] {
      LexTransitive(a[1..], b[1..], c[1..]);
    }
  }

  /** What an ordered set asks of its comparator, on the definitions of s: it always answers, opposite
      questions have opposite answers, only like definitions are the same, and the order is transitive. */
  ghost predicate OrdersAll(s: set<Def>) {
    && (forall l, r :: l in s && r in s ==>
          && Compare(l, r) != Beyond && Compare(r, l) == Opposite(Compare(l, r))
          && (Compare(l, r) == Same <==> Read(l) == Read(r)))
    && (forall l, m, r :: l in s && m in s && r in s && Compare(l, m) == Less && Compare(m, r) == Less ==>
            Compare(l, r) == Less)
  }

  /** l is a tuple whose elements begin those of the larger tuple r. */
  ghost predicate Begins(l: Def, r: Def) {
    && l.Tuple? && r.Tuple? && |l.elementTypes| < |r.elementTypes|
    && forall i :: 0 <= i < |l.elementTypes| ==> l.elementTypes[i] == r.elementTypes[i]
  }

  lemma {:induction false} ElementsMeet(l: seq<TypeRef>, r: seq<TypeRef>, i: nat)
    requires i <= |l| && i <= |r|
    ensures CompareElements(l, r, i) == Same <==>
            |l| <= |r| && forall k :: i <= k < |l| ==> l[k] == r[k]
    decreases |l| - i
  {
    if i < |l| && i < |r| {
      ElementsMeet(l, r, i + 1);
      RefsSame(l[i], r[i]);
    }
  }

  lemma {:induction false} NamesSame(l: string, r: string)
    ensures CompareNames(l, r) == Same <==> l == r
  {
    if l != [] && r != [] {
      NamesSame(l[1..], r[1..]);
      assert l == [l[0]] + l[1..] && r == [r[0]] + r[1..];
    }
  }

  lemma ListsSame(l: seq<TypeRef>, r: seq<TypeRef>)
    ensures CompareLists(l, r) == Same <==> l == r
  {
    if |l| == |r| {
      ElementsMeet(l, r, 0);
    }
  }

  lemma {:induction false} EntriesSame(l: seq<IdEntry>, r: seq<IdEntry>, i: nat)
    requires |l| == |r| && i <= |l|
    ensures CompareEntries(l, r, i) == Same <==> forall k :: i <= k < |l| ==> l[k] == r[k]
    decreases |l| - i
  {
    if i < |l| {
      NamesSame(l[i].name, r[i].name);
      ListsSame(l[i].args, r[i].args);
      EntriesSame(l, r, i + 1);
      hide CompareNames, CompareLists;
    }
  }

  lemma IdRefsSame(l: IdRef, r: IdRef)
    ensures CompareIdRefs(l, r) == Same <==> l == r
  {
    if |l.entries| == |r.entries| {
      EntriesSame(l.entries, r.entries, 0);
      assert l.entries == r.entries <==> forall k :: 0 <= k < |l.entries| ==> l.entries[k] == r.entries[k];
    }
    if l.params.Some? && r.params.Some? {
      ListsSame(l.params.value, r.params.value);
    }
    hide CompareEntries, CompareLists;
  }

  /** What the comparator calls the same: equal definitions; definitions by references of equal names and
      arguments, or by the same object; and a tuple that begins a larger one. */
  lemma SameExactly(l: Def, r: Def)
    ensures Compare(l, r) == Same <==>
              || l == r
              || (l.Custom? && r.Custom? && l.typeObject.kind == r.typeObject.kind
                  && if l.typeObject.kind == ID_REF_KIND then l.typeObject.idRef == r.typeObject.idRef
                     else l.typeObject.address == r.typeObject.address)
              || Begins(l, r)
  {
    hide CompareNames, CompareLists, CompareIdRefs, CompareTypeRefs;
    if KindOf(l) == KindOf(r) {
      match l {
        case Custom(o) => IdRefsSame(o.idRef, r.typeObject.idRef);
        case Array(t) => RefsSame(t, r.elementType);
        case Ref(t) => RefsSame(t, r.referencedType);
        case GenericArg(_, name) => NamesSame(name, r.name);
        case Fn(t, params, _) =>
          RefsSame(t, r.returnType);
          ListsSame(params, r.paramTypes);
        case ParamTypeList(params, _) => ListsSame(params, r.paramTypes);
        case Tuple(elements) =>
          ElementsMeet(elements, r.elementTypes, 0);
          assert elements == r.elementTypes <==>
              |elements| == |r.elementTypes| && forall i :: 0 <= i < |elements| ==> elements[i] == r.elementTypes[i];
        case Simd(_, _) =>
        case Unpacking(_) =>
      }
    }
  }

  lemma RefsSame(l: TypeRef, r: TypeRef)
    ensures CompareTypeRefs(l, r) == Same <==> l == r
  {
    SameTypesExactly(l, r);
  }

  /** One reading properly begins another exactly for tuples of which one begins the other. */
  lemma BeginsExactly(l: Def, r: Def)
    ensures ProperPrefix(Read(l), Read(r)) <==> Begins(l, r)
  {
    CompareIsLex(l, r);
    LexMeans(Read(l), Read(r));
    if l.Tuple? && r.Tuple? {
      ElementsMeet(l.elementTypes, r.elementTypes, 0);
      ReadSize(l.elementTypes);
      ReadSize(r.elementTypes);
    }
  }

  lemma {:induction false} ReadSize(ts: seq<TypeRef>)
    ensures |ReadTypes(ts)| == 3 * |ts|
  {
    if ts != [] {
      ReadSize(ts[1..]);
    }
  }

  /** The comparator orders a set of definitions exactly when no tuple of it begins a larger one. */
  lemma OrdersExactly(s: set<Def>)
    ensures OrdersAll(s) <==> forall l, r :: l in s && r in s ==> !Begins(l, r)
  {
    hide Compare, Lex, Read;
    forall l, r | l in s && r in s && !Begins(l, r) && !Begins(r, l)
      ensures Compare(l, r) != Beyond && Compare(r, l) == Opposite(Compare(l, r))
      ensures (Compare(l, r) == Same <==> Read(l) == Read(r))
    {
      PairOrdered(l, r);
    }
    forall l, m, r | l in s && m in s && r in s && Compare(l, m) == Less && Compare(m, r) == Less
      ensures Compare(l, r) == Less
    {
      CompareIsLex(l, m);
      CompareIsLex(m, r);
      CompareIsLex(l, r);
      LexTransitive(Read(l), Read(m), Read(r));
    }
    forall l, r | Begins(l, r)
      ensures Compare(r, l) == Beyond
    {
      BeginsExactly(l, r);
      CompareIsLex(r, l);
      LexMeans(Read(r), Read(l));
    }
  }

  lemma PairOrdered(l: Def, r: Def)
    requires !Begins(l, r) && !Begins(r, l)
    ensures Compare(l, r) != Beyond && Compare(r, l) == Opposite(Compare(l, r))
    ensures (Compare(l, r) == Same <==> Read(l) == Read(r))
    ensures Apart(Read(l), Read(r))
  {
    hide Compare, Lex, Read;
    CompareIsLex(l, r);
    CompareIsLex(r, l);
    LexMeans(Read(l), Read(r));
    LexMeans(Read(r), Read(l));
    BeginsExactly(l, r);
    BeginsExactly(r, l);
  }

  /** Tuples of equal sizes are ordered, and so is everything else. */
  lemma EqualSizesOrdered(s: set<Def>, size: nat)
    requires forall d :: d in s && d.Tuple? ==> |d.elementTypes| == size
    ensures OrdersAll(s)
  {
    OrdersExactly(s);
  }

  /** The tuple of a first element is the same as that of two, and as any other that begins with it, though
      these differ; asked the other way round, the comparator reads past the end. */
  lemma TupleBeginsTuple(a: TypeRef, b: TypeRef, c: TypeRef)
    ensures Compare(Tuple([a]), Tuple([a, b])) == Same && Compare(Tuple([a]), Tuple([a, c])) == Same
    ensures b != c ==> Compare(Tuple([a, b]), Tuple([a, c])) != Same
    ensures Compare(Tuple([a, b]), Tuple([a])) == Beyond
  {
    ElementsMeet([a], [a, b], 0);
    ElementsMeet([a], [a, c], 0);
    ElementsMeet([a, b], [a, c], 0);
    assert CompareElements([a, b], [a], 1) == Beyond;
  }
}
