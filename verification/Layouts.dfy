/** Offsets, sizes and alignments of fields (slake/runtime.cc, slake/rt/new.cc, slake/obj/class.cc). */
module Layouts {
  import opened Wrappers
  import Primitives

  /** sizeof(void*) and alignof(void*) of a 64-bit host. */
  const POINTER_SIZE := 8

  /** Unsupported: the types that sizeof_type or alignof_type have no case for, among them Any and TempRef. */
  datatype TypeId =
    | Basic(primitive: Primitives.TypeId)
    | String | Instance | Array
    | StructInstance(id: nat)
    | ScopedEnum(base: Primitives.TypeId, nullableBase: bool)
    | TypelessScopedEnum
    | UnionEnum(id: nat)
    | UnionEnumItem(id: nat)
    | Unsupported

  datatype TypeRef = TypeRef(typeId: TypeId, nullable: bool)

  datatype Field = Field(typ: TypeRef, isStatic: bool)

  datatype Extent = Extent(size: nat, alignment: nat)

  /** One field of a layout: its offset, and the index of its record in the class or struct it is from. */
  datatype Slot = Slot(offset: nat, index: nat, typ: TypeRef)

  datatype Layout = Layout(slots: seq<Slot>, total: nat, alignment: nat)

  const EMPTY := Layout([], 0, 1)

  /** What the type objects have cached: layouts, and the largest extents of union enumerations. */
  datatype Caches = Caches(layouts: map<nat, Layout>, unions: map<nat, Extent>)

  function Flag(nullable: bool): nat {
    if nullable then 1 else 0
  }

  /** The size and alignment of a type; None where the source ends the process. */
  function ExtentOf(c: Caches, t: TypeRef): Option<Extent> {
    match t.typeId
    case Basic(s) => Some(Extent(Primitives.SizeOf(s) + Flag(t.nullable), Primitives.SizeOf(s)))
    case String | Instance | Array => Some(Extent(POINTER_SIZE, POINTER_SIZE))
    case StructInstance(id) => LaidExtent(c, id, t.nullable)
    case ScopedEnum(base, nullableBase) =>
      Some(Extent(Primitives.SizeOf(base) + Flag(nullableBase) + Flag(t.nullable), Primitives.SizeOf(base)))
    case TypelessScopedEnum => Some(Extent(4 + Flag(t.nullable), 4))
    case UnionEnum(id) =>
      if id !in c.unions || c.unions[id].size == 0 || c.unions[id].alignment == 0 then None
      else Some(Extent(c.unions[id].size + Flag(t.nullable), c.unions[id].alignment))
    case UnionEnumItem(id) => LaidExtent(c, id, t.nullable)
    case Unsupported => None
  }

  function LaidExtent(c: Caches, id: nat, nullable: bool): Option<Extent> {
    if id !in c.layouts then None
    else Some(Extent(c.layouts[id].total + Flag(nullable), c.layouts[id].alignment))
  }

  function Max(a: nat, b: nat): nat {
    if a > b then a else b
  }

  /** The bytes skipped so that a field starts aligned. */
  function Padding(total: nat, alignment: nat): nat {
    if alignment > 1 && total % alignment != 0 then alignment - total % alignment else 0
  }

  function Placed(l: Layout, i: nat, typ: TypeRef, e: Extent): Layout {
    var offset := l.total + Padding(l.total, e.alignment);
    Layout(l.slots + [Slot(offset, i, typ)], offset + e.size, Max(e.alignment, l.alignment))
  }

  /** The layout after the first n fields. */
  function Laid(c: Caches, base: Layout, fields: seq<Field>, n: nat): Option<Layout>
    requires n <= |fields|
  {
    if n == 0 then Some(base) else
      var l := Laid(c, base, fields, n - 1);
      if l.None? || fields[n - 1].isStatic then l else
        match ExtentOf(c, fields[n - 1].typ)
        case None => None
        case Some(e) => Some(Placed(l.value, n - 1, fields[n - 1].typ, e))
  }

  // ----- What an extent is for

  /** What a field of the type holds: the number of an enumerator is one of its base type, or of 32 bits, and a
      pointer is an address of 64 bits. */
  function HeldAs(t: TypeId): Option<Primitives.TypeId> {
    match t
    case Basic(p) => Some(p)
    case ScopedEnum(base, _) => Some(base)
    case TypelessScopedEnum => Some(Primitives.U32)
    case String => Some(Primitives.U64)
    case Instance => Some(Primitives.U64)
    case Array => Some(Primitives.U64)
    case _ => None
  }

  /** A field has exactly the bytes of whatever value it holds, at a multiple of their number, and one byte more if
      it may be null, but for a pointer, and for an enumeration again if its base may be. */
  lemma FieldHoldsValue(c: Caches, t: TypeRef, p: Primitives.TypeId, v: int)
    requires HeldAs(t.typeId) == Some(p) && Primitives.InRange(p, v)
    ensures ExtentOf(c, t).Some?
    ensures ExtentOf(c, t).value.alignment == |Primitives.Encode(p, v)|
    ensures ExtentOf(c, t).value.size == |Primitives.Encode(p, v)|
              + (if t.nullable && !t.typeId.String? && !t.typeId.Instance? && !t.typeId.Array? then 1 else 0)
              + (if t.typeId.ScopedEnum? && t.typeId.nullableBase then 1 else 0)
  {
    Primitives.RoundTrip(p, v);
  }

  /** A struct or an item of a union has the bytes of its layout, and a union those of its largest item; one more if
      it may be null. */
  lemma FieldHoldsObject(c: Caches, t: TypeRef, id: nat)
    requires t.typeId == StructInstance(id) || t.typeId == UnionEnumItem(id) || t.typeId == UnionEnum(id)
    ensures !t.typeId.UnionEnum? ==>
              && (ExtentOf(c, t).Some? <==> id in c.layouts)
              && (id in c.layouts ==>
                    ExtentOf(c, t).value ==
                    Extent(c.layouts[id].total + (if t.nullable then 1 else 0), c.layouts[id].alignment))
    ensures t.typeId.UnionEnum? ==>
              && (ExtentOf(c, t).Some? <==> id in c.unions && c.unions[id].size > 0 && c.unions[id].alignment > 0)
              && (ExtentOf(c, t).Some? ==>
                    ExtentOf(c, t).value ==
                    Extent(c.unions[id].size + (if t.nullable then 1 else 0), c.unions[id].alignment))
  {
  }

  // ----- What a layout is

  /** The fields that take room in an object, by index. */
  ghost function RoomFields(fields: seq<Field>, n: nat): seq<nat>
    requires n <= |fields|
  {
    if n == 0 then []
    else RoomFields(fields, n - 1) + if fields[n - 1].isStatic then [] else [n - 1]
  }

  /** Where the k-th slot ends, and the base layout before the first. */
  ghost function End(c: Caches, base: Layout, slots: seq<Slot>, k: nat): nat
    requires |base.slots| <= k <= |slots|
    requires k > |base.slots| ==> ExtentOf(c, slots[k - 1].typ).Some?
  {
    if k == |base.slots| then base.total else slots[k - 1].offset + ExtentOf(c, slots[k - 1].typ).value.size
  }

  /** A slot is at the first aligned offset from start on. */
  ghost predicate FirstAligned(offset: nat, start: nat, alignment: nat) {
    && start <= offset && (alignment > 0 ==> offset % alignment == 0 && offset < start + alignment)
    && (alignment == 0 ==> offset == start)
  }

  /** The slots of base, then those of the first n fields that are not static, in order. */
  ghost predicate InOrder(base: Layout, fields: seq<Field>, n: nat, l: Layout)
    requires n <= |fields|
  {
    var (room, b) := (RoomFields(fields, n), |base.slots|);
    && base.slots <= l.slots && |l.slots| == b + |room|
    && (forall k :: 0 <= k < |room| ==>
          room[k] < |fields| && l.slots[b + k].index == room[k] && l.slots[b + k].typ == fields[room[k]].typ)
  }

  ghost predicate HaveExtents(c: Caches, base: Layout, l: Layout) {
    forall k :: |base.slots| <= k < |l.slots| ==> ExtentOf(c, l.slots[k].typ).Some?
  }

  /** Each slot is at the first aligned offset after the one before. */
  ghost predicate Tight(c: Caches, base: Layout, l: Layout)
    requires base.slots <= l.slots && HaveExtents(c, base, l)
  {
    && l.total == End(c, base, l.slots, |l.slots|)
    && (forall k {:trigger End(c, base, l.slots, k)} :: |base.slots| <= k < |l.slots| ==>
          FirstAligned(l.slots[k].offset, End(c, base, l.slots, k), ExtentOf(c, l.slots[k].typ).value.alignment))
  }

  ghost predicate Largest(c: Caches, base: Layout, l: Layout)
    requires base.slots <= l.slots && HaveExtents(c, base, l)
  {
    && base.alignment <= l.alignment
    && (forall k :: |base.slots| <= k < |l.slots| ==> ExtentOf(c, l.slots[k].typ).value.alignment <= l.alignment)
    && (l.alignment == base.alignment
        || exists k :: |base.slots| <= k < |l.slots| && ExtentOf(c, l.slots[k].typ).value.alignment == l.alignment)
  }

  /** l is base followed by the first n fields that are not static, each at the first aligned offset after
      the one before; it ends with its last field, and has the largest alignment. */
  ghost predicate IsLayout(c: Caches, base: Layout, fields: seq<Field>, n: nat, l: Layout)
    requires n <= |fields|
  {
    InOrder(base, fields, n, l) && HaveExtents(c, base, l) && Tight(c, base, l) && Largest(c, base, l)
  }

  lemma PaddingIsFirst(start: nat, alignment: nat)
    ensures FirstAligned(start + Padding(start, alignment), start, alignment)
  {
    if alignment > 1 && start % alignment != 0 {
      var (q, r) := (start / alignment, start % alignment);
      assert start + (alignment - r) == alignment * (q + 1);
      Multiple(alignment, q + 1);
    }
  }

  lemma Multiple(a: nat, q: nat)
    requires a > 0
    ensures (a * q) % a == 0
  {
    var (p, r) := ((a * q) / a, (a * q) % a);
    assert a * q == a * p + r;
    assert a * (q - p) == r;
    assert q - p >= 1 ==> a * (q - p) >= a;
    assert q - p <= -1 ==> a * (q - p) + a <= 0;
  }

  lemma FirstAlignedUnique(x: nat, y: nat, start: nat, alignment: nat)
    requires FirstAligned(x, start, alignment) && FirstAligned(y, start, alignment)
    ensures x == y
  {
    if alignment > 0 {
      var (p, q) := (x / alignment, y / alignment);
      assert x - y == alignment * (p - q);
      assert p - q >= 1 ==> alignment * (p - q) >= alignment;
      assert p - q <= -1 ==> alignment * (p - q) + alignment <= 0;
    }
  }

  lemma PlacedInOrder(c: Caches, base: Layout, fields: seq<Field>, n: nat, l: Layout, e: Extent)
    requires n < |fields| && InOrder(base, fields, n, l) && !fields[n].isStatic
    requires ExtentOf(c, fields[n].typ) == Some(e) && HaveExtents(c, base, l)
    ensures var m := Placed(l, n, fields[n].typ, e); InOrder(base, fields, n + 1, m) && HaveExtents(c, base, m)
    ensures base.slots <= l.slots && base.slots <= Placed(l, n, fields[n].typ, e).slots
  {
    hide ExtentOf, Padding;
    var m := Placed(l, n, fields[n].typ, e);
    assert base.slots <= m.slots;
    assert RoomFields(fields, n + 1) == RoomFields(fields, n) + [n];
  }

  lemma PlacedIsLayout(c: Caches, base: Layout, fields: seq<Field>, n: nat, l: Layout, e: Extent)
    requires n < |fields| && IsLayout(c, base, fields, n, l) && !fields[n].isStatic
    requires ExtentOf(c, fields[n].typ) == Some(e)
    ensures IsLayout(c, base, fields, n + 1, Placed(l, n, fields[n].typ, e))
  {
    hide ExtentOf, FirstAligned, Padding, InOrder;
    var m := Placed(l, n, fields[n].typ, e);
    var (b, last) := (|base.slots|, |l.slots|);
    PlacedInOrder(c, base, fields, n, l, e);
    PaddingIsFirst(l.total, e.alignment);
    assert forall k :: 0 <= k < last ==> m.slots[k] == l.slots[k];
    assert m.slots[last] == Slot(l.total + Padding(l.total, e.alignment), n, fields[n].typ);
    assert Tight(c, base, m) by {
      forall k | b <= k < |m.slots|
        ensures FirstAligned(m.slots[k].offset, End(c, base, m.slots, k), ExtentOf(c, m.slots[k].typ).value.alignment)
      {
        assert k < last ==> End(c, base, m.slots, k) == End(c, base, l.slots, k);
        assert k == last ==> End(c, base, m.slots, k) == l.total;
      }
    }
    if m.alignment == e.alignment {
      assert ExtentOf(c, m.slots[last].typ).value.alignment == m.alignment;
    } else if m.alignment != base.alignment {
      var k :| b <= k < last && ExtentOf(c, l.slots[k].typ).value.alignment == l.alignment;
      assert ExtentOf(c, m.slots[k].typ).value.alignment == m.alignment;
    }
  }

  lemma NothingPlaced(c: Caches, base: Layout, fields: seq<Field>)
    ensures IsLayout(c, base, fields, 0, base)
  {
    assert RoomFields(fields, 0) == [];
  }

  lemma StaticPassed(c: Caches, base: Layout, fields: seq<Field>, n: nat, l: Layout)
    requires n < |fields| && IsLayout(c, base, fields, n, l) && fields[n].isStatic
    ensures IsLayout(c, base, fields, n + 1, l)
  {
    hide ExtentOf, HaveExtents, Tight, Largest;
    assert RoomFields(fields, n + 1) == RoomFields(fields, n);
  }

  /** Laying out succeeds when every field that takes room has an extent, and gives the layout that the
      fields determine. */
  lemma {:induction false} LaidExactly(c: Caches, base: Layout, fields: seq<Field>, n: nat)
    requires n <= |fields|
    ensures Laid(c, base, fields, n).Some? <==> forall k :: 0 <= k < n && !fields[k].isStatic ==>
              ExtentOf(c, fields[k].typ).Some?
    ensures Laid(c, base, fields, n).Some? ==> IsLayout(c, base, fields, n, Laid(c, base, fields, n).value)
  {
    hide ExtentOf, Placed, IsLayout;
    if n == 0 {
      NothingPlaced(c, base, fields);
    } else {
      LaidExactly(c, base, fields, n - 1);
      var l := Laid(c, base, fields, n - 1);
      if l.Some? {
        if fields[n - 1].isStatic {
          StaticPassed(c, base, fields, n - 1, l.value);
        } else if ExtentOf(c, fields[n - 1].typ).Some? {
          PlacedIsLayout(c, base, fields, n - 1, l.value, ExtentOf(c, fields[n - 1].typ).value);
        }
      }
    }
  }

  /** The fields determine the layout. */
  lemma LayoutUnique(c: Caches, base: Layout, fields: seq<Field>, n: nat, l: Layout, m: Layout)
    requires n <= |fields| && IsLayout(c, base, fields, n, l) && IsLayout(c, base, fields, n, m)
    ensures l == m
  {
    hide ExtentOf, Tight, Largest, HaveExtents;
    SameTypes(base, fields, n, l, m);
    hide InOrder;
    SameSlots(c, base, l, m, |l.slots|);
    assert l.slots == l.slots[..|l.slots|] && m.slots == m.slots[..|l.slots|];
    LargestUnique(c, base, l, m);
    EndIsTotal(c, base, l);
    EndIsTotal(c, base, m);
  }

  lemma EndIsTotal(c: Caches, base: Layout, l: Layout)
    requires base.slots <= l.slots && HaveExtents(c, base, l) && Tight(c, base, l)
    ensures l.total == End(c, base, l.slots, |l.slots|)
  {
  }

  ghost predicate SameFields(l: Layout, m: Layout) {
    && |l.slots| == |m.slots|
    && forall k :: 0 <= k < |l.slots| ==> l.slots[k].index == m.slots[k].index && l.slots[k].typ == m.slots[k].typ
  }

  lemma SameTypes(base: Layout, fields: seq<Field>, n: nat, l: Layout, m: Layout)
    requires n <= |fields| && InOrder(base, fields, n, l) && InOrder(base, fields, n, m)
    ensures SameFields(l, m) && base.slots <= l.slots && base.slots <= m.slots
  {
    var (room, b) := (RoomFields(fields, n), |base.slots|);
    forall k | 0 <= k < |l.slots|
      ensures l.slots[k].index == m.slots[k].index && l.slots[k].typ == m.slots[k].typ
    {
      if k < b {
        assert l.slots[k] == base.slots[k] == m.slots[k];
      } else {
        assert l.slots[b + (k - b)].index == room[k - b] == m.slots[b + (k - b)].index;
      }
    }
  }

  lemma {:induction false} SameSlots(c: Caches, base: Layout, l: Layout, m: Layout, k: nat)
    requires base.slots <= l.slots && HaveExtents(c, base, l) && Tight(c, base, l)
    requires base.slots <= m.slots && HaveExtents(c, base, m) && Tight(c, base, m)
    requires SameFields(l, m) && |base.slots| <= k <= |l.slots|
    ensures l.slots[..k] == m.slots[..k] && End(c, base, l.slots, k) == End(c, base, m.slots, k)
  {
    hide ExtentOf, FirstAligned;
    if k == |base.slots| {
      assert l.slots[..k] == base.slots == m.slots[..k];
    } else {
      SameSlots(c, base, l, m, k - 1);
      FirstAlignedUnique(l.slots[k - 1].offset, m.slots[k - 1].offset, End(c, base, l.slots, k - 1),
                         ExtentOf(c, l.slots[k - 1].typ).value.alignment);
      assert l.slots[..k] == l.slots[..k - 1] + [l.slots[k - 1]];
      assert m.slots[..k] == m.slots[..k - 1] + [m.slots[k - 1]];
    }
  }

  lemma LargestUnique(c: Caches, base: Layout, l: Layout, m: Layout)
    requires base.slots <= l.slots && l.slots == m.slots && HaveExtents(c, base, l)
    requires Largest(c, base, l) && Largest(c, base, m)
    ensures l.alignment == m.alignment
  {
    hide ExtentOf;
  }

  // ----- What a layout promises

  /** Every field is aligned, inside the object, and after the fields before it. */
  ghost predicate Sound(c: Caches, l: Layout) {
    && l.alignment in {1, 2, 4, 8}
    && (forall k :: 0 <= k < |l.slots| ==> SoundSlot(c, l, l.slots[k]))
    && (forall i, j :: 0 <= i < j < |l.slots| ==> SlotEnd(c, l.slots[i]) <= l.slots[j].offset)
  }

  ghost predicate SoundSlot(c: Caches, l: Layout, s: Slot) {
    var e := ExtentOf(c, s.typ);
    && e.Some? && e.value.alignment in {1, 2, 4, 8} && e.value.alignment <= l.alignment
    && s.offset % e.value.alignment == 0 && SlotEnd(c, s) <= l.total
  }

  ghost function SlotEnd(c: Caches, s: Slot): nat {
    var e := ExtentOf(c, s.typ);
    s.offset + if e.Some? then e.value.size else 0
  }

  /** Everything cached is sound. */
  ghost predicate SoundCaches(c: Caches) {
    && (forall id :: id in c.layouts ==> Sound(c, c.layouts[id]))
    && (forall id :: id in c.unions ==> c.unions[id].alignment in {0, 1, 2, 4, 8})
  }

  lemma AlignmentsArePowers(c: Caches, t: TypeRef)
    requires SoundCaches(c) && ExtentOf(c, t).Some?
    ensures ExtentOf(c, t).value.alignment in {1, 2, 4, 8}
  {
  }

  lemma {:induction false} EndsGrow(c: Caches, base: Layout, l: Layout, i: nat, j: nat)
    requires base.slots <= l.slots && HaveExtents(c, base, l) && Tight(c, base, l)
    requires |base.slots| <= i <= j <= |l.slots|
    ensures End(c, base, l.slots, i) <= End(c, base, l.slots, j)
  {
    hide ExtentOf;
    if i < j {
      EndsGrow(c, base, l, i, j - 1);
    }
  }

  lemma PlacedSoundly(c: Caches, base: Layout, l: Layout, k: nat)
    requires SoundCaches(c) && base.slots <= l.slots && HaveExtents(c, base, l) && Tight(c, base, l)
    requires Largest(c, base, l)
    requires |base.slots| <= k < |l.slots|
    ensures SoundSlot(c, l, l.slots[k]) && base.total <= l.slots[k].offset
  {
    AlignmentsArePowers(c, l.slots[k].typ);
    hide ExtentOf;
    EndsGrow(c, base, l, |base.slots|, k);
    EndsGrow(c, base, l, k + 1, |l.slots|);
  }

  /** The slots of l are the fields that are not static, in order. */
  ghost predicate SlotsAre(fields: seq<Field>, l: Layout) {
    var room := RoomFields(fields, |fields|);
    && |l.slots| == |room|
    && forall k :: 0 <= k < |room| ==>
         room[k] < |fields| && l.slots[k].index == room[k] && l.slots[k].typ == fields[room[k]].typ
  }

  ghost function SlotAlignment(c: Caches, s: Slot): nat {
    if ExtentOf(c, s.typ).Some? then ExtentOf(c, s.typ).value.alignment else 1
  }

  /** Nothing is before the first slot, no multiple of its alignment between a slot and the one before, and nothing
      after the last; the largest alignment is that of the object. */
  ghost predicate Packed(c: Caches, l: Layout) {
    && (forall k :: 0 <= k < |l.slots| ==> ExtentOf(c, l.slots[k].typ).Some? && SlotAlignment(c, l.slots[k]) > 0)
    && (if l.slots == [] then l.total == 0 && l.alignment == 1
        else l.slots[0].offset == 0 && l.total == SlotEnd(c, l.slots[|l.slots| - 1]))
    && (forall k :: 0 < k < |l.slots| ==>
          FollowsAt(l.slots[k].offset, SlotEnd(c, l.slots[k - 1]), SlotAlignment(c, l.slots[k])))
    && (forall k :: 0 <= k < |l.slots| ==> SlotAlignment(c, l.slots[k]) <= l.alignment)
    && (l.alignment == 1 || exists k :: 0 <= k < |l.slots| && SlotAlignment(c, l.slots[k]) == l.alignment)
  }

  ghost predicate FollowsAt(offset: nat, end: nat, alignment: nat) {
    alignment > 0 && end <= offset < end + alignment && offset % alignment == 0
  }

  lemma FirstFollows(offset: nat, start: nat, alignment: nat)
    requires FirstAligned(offset, start, alignment) && alignment > 0
    ensures FollowsAt(offset, start, alignment) && (start == 0 ==> offset == 0)
  {
    if start == 0 {
      FirstAlignedUnique(offset, 0, 0, alignment);
    }
  }

  lemma RoomInRange(fields: seq<Field>, n: nat)
    requires n <= |fields|
    ensures forall k :: 0 <= k < |RoomFields(fields, n)| ==> RoomFields(fields, n)[k] < n
  {
  }

  lemma LaidPacked(c: Caches, fields: seq<Field>, l: Layout)
    requires SoundCaches(c) && IsLayout(c, EMPTY, fields, |fields|, l)
    ensures SlotsAre(fields, l) && Packed(c, l)
  {
    LaidSlots(c, fields, l);
    LaidTotal(c, l);
    hide ExtentOf, FirstAligned, IsLayout, SoundCaches, FollowsAt, HaveExtents, Tight, Largest, InOrder, SlotAlignment;
    hide SlotEnd, RoomFields, SlotsAre;
    forall k | 0 <= k < |l.slots|
      ensures ExtentOf(c, l.slots[k].typ).Some? && SlotAlignment(c, l.slots[k]) > 0
      ensures FollowsAt(
                l.slots[k].offset, if k == 0 then 0 else SlotEnd(c, l.slots[k - 1]), SlotAlignment(c, l.slots[k]))
      ensures k == 0 ==> l.slots[k].offset == 0
      ensures SlotAlignment(c, l.slots[k]) <= l.alignment
    {
      LaidSlot(c, l, k);
    }
  }

  lemma LaidSlots(c: Caches, fields: seq<Field>, l: Layout)
    requires IsLayout(c, EMPTY, fields, |fields|, l)
    ensures SlotsAre(fields, l) && EMPTY.slots <= l.slots
    ensures HaveExtents(c, EMPTY, l) && Tight(c, EMPTY, l) && Largest(c, EMPTY, l)
  {
    RoomInRange(fields, |fields|);
    hide ExtentOf, Tight, Largest, HaveExtents;
  }

  lemma LaidSlot(c: Caches, l: Layout, k: nat)
    requires SoundCaches(c) && EMPTY.slots <= l.slots && k < |l.slots|
    requires HaveExtents(c, EMPTY, l) && Tight(c, EMPTY, l) && Largest(c, EMPTY, l)
    ensures ExtentOf(c, l.slots[k].typ).Some? && SlotAlignment(c, l.slots[k]) > 0
    ensures FollowsAt(l.slots[k].offset, if k == 0 then 0 else SlotEnd(c, l.slots[k - 1]), SlotAlignment(c, l.slots[k]))
    ensures k == 0 ==> l.slots[k].offset == 0
    ensures SlotAlignment(c, l.slots[k]) <= l.alignment
  {
    AlignmentsArePowers(c, l.slots[k].typ);
    hide ExtentOf, SoundCaches;
    assert FirstAligned(l.slots[k].offset, End(c, EMPTY, l.slots, k), ExtentOf(c, l.slots[k].typ).value.alignment);
    FirstFollows(l.slots[k].offset, End(c, EMPTY, l.slots, k), ExtentOf(c, l.slots[k].typ).value.alignment);
    hide FirstAligned, FollowsAt;
  }

  lemma LaidTotal(c: Caches, l: Layout)
    requires EMPTY.slots <= l.slots && HaveExtents(c, EMPTY, l) && Tight(c, EMPTY, l) && Largest(c, EMPTY, l)
    ensures if l.slots == [] then l.total == 0 && l.alignment == 1 else l.total == SlotEnd(c, l.slots[|l.slots| - 1])
    ensures l.alignment == 1 || exists k :: 0 <= k < |l.slots| && SlotAlignment(c, l.slots[k]) == l.alignment
  {
    hide ExtentOf, FirstAligned;
    if l.alignment != 1 {
      var k :| 0 <= k < |l.slots| && ExtentOf(c, l.slots[k].typ).value.alignment == l.alignment;
      assert SlotAlignment(c, l.slots[k]) == l.alignment;
    }
  }

  lemma PlacedApart(c: Caches, base: Layout, l: Layout, i: nat, j: nat)
    requires base.slots <= l.slots && HaveExtents(c, base, l) && Tight(c, base, l)
    requires |base.slots| <= i < j < |l.slots|
    ensures SlotEnd(c, l.slots[i]) <= l.slots[j].offset
  {
    hide ExtentOf;
    EndsGrow(c, base, l, i + 1, j);
  }

  lemma StartIsTotal(c: Caches, base: Layout, l: Layout)
    requires base.slots <= l.slots && HaveExtents(c, base, l) && Tight(c, base, l)
    ensures base.total <= l.total
  {
    hide ExtentOf;
    EndsGrow(c, base, l, |base.slots|, |l.slots|);
  }

  lemma LargestIsPower(c: Caches, base: Layout, l: Layout)
    requires SoundCaches(c) && base.slots <= l.slots && HaveExtents(c, base, l) && Largest(c, base, l)
    requires base.alignment in {1, 2, 4, 8}
    ensures l.alignment in {1, 2, 4, 8} && base.alignment <= l.alignment
  {
    hide ExtentOf;
    if l.alignment != base.alignment {
      var k :| |base.slots| <= k < |l.slots| && ExtentOf(c, l.slots[k].typ).value.alignment == l.alignment;
      AlignmentsArePowers(c, l.slots[k].typ);
    }
  }

  /** Fields laid out after a sound base make a sound layout. */
  lemma LayoutSound(c: Caches, base: Layout, l: Layout)
    requires SoundCaches(c) && Sound(c, base)
    requires base.slots <= l.slots && HaveExtents(c, base, l) && Tight(c, base, l) && Largest(c, base, l)
    ensures Sound(c, l)
    ensures base.total <= l.total
    ensures forall k :: |base.slots| <= k < |l.slots| ==> base.total <= l.slots[k].offset
  {
    hide ExtentOf, Tight, Largest, HaveExtents, SoundCaches;
    var (b, m) := (|base.slots|, |l.slots|);
    StartIsTotal(c, base, l);
    LargestIsPower(c, base, l);
    forall k | 0 <= k < m
      ensures SoundSlot(c, l, l.slots[k])
      ensures k >= b ==> base.total <= l.slots[k].offset
    {
      if k < b {
        assert l.slots[k] == base.slots[k] && SoundSlot(c, base, base.slots[k]);
      } else {
        PlacedSoundly(c, base, l, k);
      }
    }
    hide SoundSlot;
    forall i, j | 0 <= i < j < m
      ensures SlotEnd(c, l.slots[i]) <= l.slots[j].offset
    {
      if j < b {
        assert l.slots[i] == base.slots[i] && l.slots[j] == base.slots[j];
      } else if i < b {
        InsideBase(c, base, l, i);
      } else {
        PlacedApart(c, base, l, i, j);
      }
    }
  }

  lemma InsideBase(c: Caches, base: Layout, l: Layout, i: nat)
    requires Sound(c, base) && base.slots <= l.slots && i < |base.slots|
    ensures SlotEnd(c, l.slots[i]) <= base.total
  {
    hide ExtentOf;
    assert l.slots[i] == base.slots[i] && SoundSlot(c, base, base.slots[i]);
  }

  lemma DividesSmaller(x: nat, big: nat, small: nat)
    requires big in {1, 2, 4, 8} && small in {1, 2, 4, 8} && small <= big && x % big == 0
    ensures x % small == 0
  {
    var (q, m) := (x / big, if small == 1 then big else if small == big then 1 else if small == 2 then big / 2 else 2);
    assert small * m == big && x == big * q;
    assert small * (m * q) == (small * m) * q;
    Multiple(small, m * q);
  }

  lemma SumDivides(x: nat, y: nat, a: nat)
    requires a in {1, 2, 4, 8} && x % a == 0 && y % a == 0
    ensures (x + y) % a == 0
  {
    assert x == a * (x / a) && y == a * (y / a);
    assert x + y == a * (x / a + y / a);
    Multiple(a, x / a + y / a);
  }

  /** A sound object at an address that is a multiple of its alignment has every field at a multiple of that
      field's alignment; so have the fields of its fields. */
  lemma FieldsAligned(c: Caches, l: Layout, address: nat, k: nat)
    requires Sound(c, l) && address % l.alignment == 0 && k < |l.slots|
    ensures ExtentOf(c, l.slots[k].typ).Some? && ExtentOf(c, l.slots[k].typ).value.alignment > 0
    ensures (address + l.slots[k].offset) % ExtentOf(c, l.slots[k].typ).value.alignment == 0
  {
    hide ExtentOf;
    assert SoundSlot(c, l, l.slots[k]);
    var a := ExtentOf(c, l.slots[k].typ).value.alignment;
    DividesSmaller(address, l.alignment, a);
    SumDivides(address, l.slots[k].offset, a);
  }

  /** No byte belongs to two fields, or to a field and not to the object. */
  lemma FieldsDisjoint(c: Caches, l: Layout, i: nat, j: nat, byte: nat)
    requires Sound(c, l) && i < |l.slots| && j < |l.slots|
    requires l.slots[i].offset <= byte < SlotEnd(c, l.slots[i]) && l.slots[j].offset <= byte < SlotEnd(c, l.slots[j])
    ensures i == j && byte < l.total
  {
    hide ExtentOf, SlotEnd;
    assert SoundSlot(c, l, l.slots[i]);
  }
}
