/** Managed objects and the intrusive lists threaded through them (slake/obj/object.h). */
module GcObject {
  import opened SeqOps
  import opened TypeRefs
  import opened Wrappers
  import TypeDefs

  datatype GcStatus = Unwalked | ReadyToWalk | Walked

  datatype Generation = Young | Persistent

  /** The work list an object is on during a collection; a loose object is on none,
      and one being walked has just left the batch. */
  datatype Home = LooseHome | HostHome | UnwalkedHome | WalkableHome | BatchHome | WalkingHome | WalkedHome

  /** Only the test for type definitions matters to the collector. */
  datatype ObjectKind = TypeDef | OtherKind

  /** A type definition as it is in the heap. */
  type PointerDef = TypeDefs.TypeDef<Object, Object, Object, Object>

  /** What the comparator of type definitions can look at: strings, types, references by name, the
      definitions themselves; of any other object only its kind. */
  datatype Payload =
    | Text(data: string)
    | HeapType(held: Type<Object?>, modifier: nat)
    | Definition(def: PointerDef)
    | ByName(idRef: TypeDefs.IdRef)
    | OtherPayload(objectKind: nat)

  class Object {
    var hostRefCount: nat
    var nextSameGen: Object?
    var prevSameGen: Object?
    var nextSameGcset: Object?
    var prevSameGcset: Object?
    var gcStatus: GcStatus
    var spinlock: bool
    var generation: Generation
    /** Every object pointer that walking this object pushes, null ones included. */
    var refs: seq<Object?>
    const payload: Payload
    const address: nat
    const kind: ObjectKind := if payload.Definition? then TypeDef else OtherKind
    /** Bytes that deallocation returns to the allocator of the object's generation. */
    const size: nat
    /** What the comparator reads of a type definition. */
    const typeKey: TypeDefs.Reading := if payload.Definition? then TypeDefs.Read(DefOf(payload.def)) else []
    ghost var home: Home
    /** Set by deallocation: touching the object afterwards is undefined in the source. */
    var freed: bool

    constructor (payload: Payload, address: nat, size: nat)
      ensures this.payload == payload && this.address == address && this.size == size
      ensures hostRefCount == 0 && nextSameGen == null && prevSameGen == null
      ensures gcStatus == Unwalked && !spinlock && generation == Young && refs == [] && !freed
    {
      this.payload, this.address, this.size := payload, address, size;
      hostRefCount, nextSameGen, prevSameGen := 0, null, null;
      gcStatus, spinlock, generation, refs, freed := Unwalked, false, Young, [], false;
    }
  }

  // ----- Type definitions in the heap

  /** The position of the object's kind in the enumeration ObjectKind. */
  function KindNumber(o: Object): nat {
    match o.payload
    case Text(_) => 1
    case HeapType(_, _) => 2
    case Definition(_) => 3
    case ByName(_) => TypeDefs.ID_REF_KIND
    case OtherPayload(k) => k
  }

  /** The type with the address of its definition instead of the definition. */
  function WithAddress(t: Type<Object?>): Type<nat> {
    match t
    case Plain(id) => Plain(id)
    case Defined(id, d) => Defined(id, if d == null then 0 else d.address)
  }

  /** The type that a heap type holds. */
  function TypeRefAt(o: Object): TypeRef {
    if o.payload.HeapType? then TypeRef(WithAddress(o.payload.held), o.payload.modifier) else TypeRef(Plain(Invalid), 0)
  }

  function TypeRefsAt(os: seq<Object>): (ts: seq<TypeRef>)
    ensures |ts| == |os| && forall i :: 0 <= i < |os| ==> ts[i] == TypeRefAt(os[i])
  {
    seq(|os|, i requires 0 <= i < |os| => TypeRefAt(os[i]))
  }

  function NameAt(o: Object): string {
    if o.payload.Text? then o.payload.data else ""
  }

  function TypeObjectAt(o: Object): TypeDefs.TypeObject {
    TypeDefs.TypeObject(KindNumber(o), o.address, if o.payload.ByName? then o.payload.idRef
        else TypeDefs.IdRef([], None, false))
  }

  /** The definition with what is found behind its pointers. */
  function DefOf(d: PointerDef): TypeDefs.Def {
    match d
    case Custom(o) => TypeDefs.Custom(TypeObjectAt(o))
    case Array(t) => TypeDefs.Array(TypeRefAt(t))
    case Ref(t) => TypeDefs.Ref(TypeRefAt(t))
    case GenericArg(owner, name) => TypeDefs.GenericArg(owner.address, NameAt(name))
    case Fn(t, params, v) => TypeDefs.Fn(TypeRefAt(t), TypeRefsAt(params), v)
    case ParamTypeList(params, v) => TypeDefs.ParamTypeList(TypeRefsAt(params), v)
    case Tuple(elements) => TypeDefs.Tuple(TypeRefsAt(elements))
    case Simd(t, w) => TypeDefs.Simd(t.address, w)
    case Unpacking(t) => TypeDefs.Unpacking(t.address)
  }

  /** The objects that comparing a definition dereferences. Owners, lane types and pack types are only
      compared by address. */
  ghost function ReadBy(d: PointerDef): set<Object> {
    match d
    case Custom(o) => {o}
    case Array(t) => {t}
    case Ref(t) => {t}
    case GenericArg(_, name) => {name}
    case Fn(t, params, _) => {t} + Elems(params)
    case ParamTypeList(params, _) => Elems(params)
    case Tuple(elements) => Elems(elements)
    case Simd(_, _) => {}
    case Unpacking(_) => {}
  }

  ghost function ReadWith(t: Object): set<Object> {
    if t.payload.Definition? then ReadBy(t.payload.def) else {}
  }

  // ----- The lists

  ghost function StatusOf(home: Home): GcStatus {
    match home
    case WalkableHome => ReadyToWalk
    case BatchHome => ReadyToWalk
    case WalkingHome => Walked
    case WalkedHome => Walked
    case _ => Unwalked
  }

  /** An object is locked from its push to the end of its walk. */
  ghost predicate Locked(home: Home) {
    home == WalkableHome || home == BatchHome || home == WalkingHome
  }

  /** The element at index i, or null beyond either end. */
  ghost function At(s: seq<Object>, i: int): Object? {
    if 0 <= i < |s| then s[i] else null
  }

  /** s holds distinct objects of heap, all of which know that they are on this list. */
  ghost predicate OnList(s: seq<Object>, heap: set<Object>, home: Home)
    reads heap`home
  {
    && Distinct(s)
    && (forall i {:trigger s[i]} :: 0 <= i < |s| ==> s[i] in heap && s[i].home == home)
  }

  /** s is exactly the doubly linked chain of the collector's work-set pointers. */
  ghost predicate GcsetLinked(s: seq<Object>)
    reads s`nextSameGcset, s`prevSameGcset
  {
    && (forall i {:trigger s[i].nextSameGcset} :: 0 <= i < |s| ==> s[i].nextSameGcset == At(s, i + 1))
    && (forall i {:trigger s[i].prevSameGcset} :: 0 <= i < |s| ==> s[i].prevSameGcset == At(s, i - 1))
  }

  /** The walkable list is linked forwards only: its back pointers stay null. */
  ghost predicate GcsetChained(s: seq<Object>)
    reads s`nextSameGcset, s`prevSameGcset
  {
    && (forall i {:trigger s[i].nextSameGcset} :: 0 <= i < |s| ==> s[i].nextSameGcset == At(s, i + 1))
    && (forall i {:trigger s[i].prevSameGcset} :: 0 <= i < |s| ==> s[i].prevSameGcset == null)
  }

  /** s is exactly the doubly linked list of one generation. */
  ghost predicate GenLinked(s: seq<Object>)
    reads s`nextSameGen, s`prevSameGen
  {
    && (forall i {:trigger s[i].nextSameGen} :: 0 <= i < |s| ==> s[i].nextSameGen == At(s, i + 1))
    && (forall i {:trigger s[i].prevSameGen} :: 0 <= i < |s| ==> s[i].prevSameGen == At(s, i - 1))
  }

  datatype FrontArgs = FrontArgs(obj: Object, heap: set<Object>, t: seq<Object>, h: Home)

  /** f.obj was linked in front of the doubly linked list f.t and moved to its home f.h. */
  twostate predicate PushedFront(f: FrontArgs)
    reads f.obj, f.heap
  {
    && f.obj.nextSameGcset == At(f.t, 0) && f.obj.prevSameGcset == null && f.obj.home == f.h
    && (forall o {:trigger o.nextSameGcset} :: o in f.heap && o != f.obj ==> o.nextSameGcset == old(o.nextSameGcset))
    && (forall o {:trigger o.prevSameGcset} :: o in f.heap && o != f.obj ==>
          o.prevSameGcset == if o == At(f.t, 0) then f.obj else old(o.prevSameGcset))
    && (forall o :: o in f.heap && o != f.obj ==>
          o.home == old(o.home) && o.gcStatus == old(o.gcStatus) && o.spinlock == old(o.spinlock))
  }

  twostate lemma FrontList(f: FrontArgs)
    requires PushedFront(f) && f.obj !in f.t
    requires old(OnList(f.t, f.heap, f.h)) && old(GcsetLinked(f.t))
    ensures OnList([f.obj] + f.t, f.heap + {f.obj}, f.h) && GcsetLinked([f.obj] + f.t)
  {
    var (t, r) := (f.t, [f.obj] + f.t);
    forall i | 0 < i < |r|
      ensures r[i] != f.obj && r[i] in f.heap && r[i].home == f.h
      ensures r[i].nextSameGcset == At(r, i + 1) && r[i].prevSameGcset == At(r, i - 1)
    {
      assert r[i] == t[i - 1] && old(t[i - 1].home) == f.h;
      assert old(t[i - 1].nextSameGcset) == At(t, i) && old(t[i - 1].prevSameGcset) == At(t, i - 2);
    }
  }

  datatype BesideArgs = BesideArgs(front: FrontArgs, t: seq<Object>, h: Home)

  /** Any other list keeps its members and their pointers. */
  twostate lemma BesideList(b: BesideArgs)
    requires PushedFront(b.front) && b.front.obj !in b.t
    requires old(OnList(b.t, b.front.heap, b.h)) && b.h != b.front.h
    requires old(OnList(b.front.t, b.front.heap, b.front.h))
    ensures OnList(b.t, b.front.heap + {b.front.obj}, b.h)
    ensures old(GcsetLinked(b.t)) ==> GcsetLinked(b.t)
    ensures old(GcsetChained(b.t)) ==> GcsetChained(b.t)
  {
    forall i | 0 <= i < |b.t|
      ensures b.t[i] != b.front.obj && b.t[i] != At(b.front.t, 0)
    {
      assert old(b.t[i].home) == b.h;
    }
  }
}
