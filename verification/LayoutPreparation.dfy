/** Laying out structs, unions and classes before they are used (slake/rt/new.cc). */
module LayoutPreparation {
  import opened Wrappers
  import opened TypeGraph
  import opened Layouts

  datatype BaseType = NoBase | Inherits(id: nat) | NotInstance

  datatype Decl =
    | Struct(fields: seq<Field>)
    | UnionItem(fields: seq<Field>)
    | Union(members: seq<nat>)
    | Class(fields: seq<Field>, base: BaseType)

  type Decls = map<nat, Decl>

  /** A field of a type with its own layout leads to that type. */
  function EdgeOf(f: Field): Edge {
    match f.typ.typeId
    case StructInstance(id) => To(id)
    case UnionEnum(id) => To(id)
    case UnionEnumItem(id) => To(id)
    case _ => Leaf
  }

  function EdgesOf(d: Decl): (es: seq<Edge>) {
    match d
    case Struct(fs) => seq(|fs|, i requires 0 <= i < |fs| => EdgeOf(fs[i]))
    case UnionItem(fs) => seq(|fs|, i requires 0 <= i < |fs| => EdgeOf(fs[i]))
    case Union(ms) => seq(|ms|, i requires 0 <= i < |ms| => To(ms[i]))
    case Class(_, _) => []
  }

  /** What contains what by value. */
  function GraphOf(d: Decls): Graph {
    map id | id in d :: EdgesOf(d[id])
  }

  predicate IsOf(t: TypeId, y: nat) {
    t == StructInstance(y) || t == UnionEnum(y) || t == UnionEnumItem(y)
  }

  /** One thing contains another by value exactly when it is a struct or an item of a union with a field of that
      struct, union or item, static or not and nullable or not, or a union of which the other is an item. */
  lemma ContainsExactly(d: Decls, x: nat, y: nat)
    requires x in d
    ensures (exists k :: 0 <= k < |GraphOf(d)[x]| && GraphOf(d)[x][k] == To(y)) <==>
              match d[x]
              case Struct(fs) => exists k :: 0 <= k < |fs| && IsOf(fs[k].typ.typeId, y)
              case UnionItem(fs) => exists k :: 0 <= k < |fs| && IsOf(fs[k].typ.typeId, y)
              case Union(ms) => y in ms
              case Class(_, _) => false
    ensures !d[x].Class? ==>
              |GraphOf(d)[x]| == if d[x].Union? then |d[x].members| else |d[x].fields|
  {
    var es := GraphOf(d)[x];
    assert es == EdgesOf(d[x]);
    if d[x].Struct? || d[x].UnionItem? {
      assert forall k :: 0 <= k < |es| ==>
          (es[k] == To(y) <==> IsOf(d[x].fields[k].typ.typeId, y));
    } else if d[x].Union? {
      assert forall k :: 0 <= k < |es| ==> es[k] == To(d[x].members[k]);
      if y in d[x].members {
        var k :| 0 <= k < |d[x].members| && d[x].members[k] == y;
        assert es[k] == To(y);
      }
    }
  }

  /** Type definitions name objects of their kind, as the source asserts. */
  ghost predicate WfField(d: Decls, f: Field) {
    match f.typ.typeId
    case StructInstance(id) => id in d && d[id].Struct?
    case UnionEnum(id) => id in d && d[id].Union?
    case UnionEnumItem(id) => id in d && d[id].UnionItem?
    case _ => true
  }

  ghost predicate WfDecl(d: Decls, x: Decl) {
    match x
    case Union(ms) => forall k :: 0 <= k < |ms| ==> ms[k] in d && d[ms[k]].UnionItem?
    case Class(fs, base) => (forall k :: 0 <= k < |fs| ==> WfField(d, fs[k])) && (base.Inherits? ==> base.id in d)
    case _ => forall k :: 0 <= k < |x.fields| ==> WfField(d, x.fields[k])
  }

  ghost predicate WfDecls(d: Decls) {
    forall id :: id in d ==> WfDecl(d, d[id])
  }

  lemma EdgesLead(d: Decls, id: nat, k: nat)
    requires WfDecls(d) && id in d && k < |EdgesOf(d[id])| && EdgesOf(d[id])[k].To?
    ensures EdgesOf(d[id])[k].id in d && !d[EdgesOf(d[id])[k].id].Class?
  {
    assert WfDecl(d, d[id]);
    if d[id].Struct? || d[id].UnionItem? {
      assert WfField(d, d[id].fields[k]);
    }
  }

  lemma GraphClosed(d: Decls)
    requires WfDecls(d)
    ensures Closed(GraphOf(d))
  {
    var g: Graph := GraphOf(d);
    forall id: nat, k: nat | id in g && k < |g[id]| && g[id][k].To?
      ensures g[id][k].id in g
    {
      EdgesLead(d, id, k);
    }
  }

  // ----- Consistent caches

  function Widest(c: Caches, members: seq<nat>, n: nat): Extent
    requires n <= |members| && forall k :: 0 <= k < n ==> members[k] in c.layouts
  {
    if n == 0 then Extent(0, 0) else
      var (e, l) := (Widest(c, members, n - 1), c.layouts[members[n - 1]]);
      Extent(Max(l.total, e.size), Max(l.alignment, e.alignment))
  }

  /** The extent of a union covers each of its items, and no less covers them all. */
  lemma {:induction false} WidestCovers(c: Caches, members: seq<nat>, n: nat)
    requires n <= |members| && forall k :: 0 <= k < n ==> members[k] in c.layouts
    ensures forall k :: 0 <= k < n ==>
              c.layouts[members[k]].total <= Widest(c, members, n).size
              && c.layouts[members[k]].alignment <= Widest(c, members, n).alignment
    ensures n > 0 ==>
              && (exists k :: 0 <= k < n && c.layouts[members[k]].total == Widest(c, members, n).size)
              && (exists k :: 0 <= k < n && c.layouts[members[k]].alignment == Widest(c, members, n).alignment)
  {
    if n > 0 {
      WidestCovers(c, members, n - 1);
      assert c.layouts[members[n - 1]].total <= Widest(c, members, n).size;
      if n > 1 {
        var i :| 0 <= i < n - 1 && c.layouts[members[i]].total == Widest(c, members, n - 1).size;
        var j :| 0 <= j < n - 1 && c.layouts[members[j]].alignment == Widest(c, members, n - 1).alignment;
        assert 0 <= i < n && 0 <= j < n;
      }
    }
  }

  /** A cached layout is that of the fields, after the layout of the base class. */
  ghost predicate LaidFrom(d: Decls, c: Caches, id: nat)
    requires id in c.layouts
  {
    id in d &&
    match d[id]
    case Struct(fs) => Laid(c, EMPTY, fs, |fs|) == Some(c.layouts[id])
    case UnionItem(fs) => Laid(c, EMPTY, fs, |fs|) == Some(c.layouts[id])
    case Union(_) => false
    case Class(fs, base) =>
      match base
      case NoBase => Laid(c, EMPTY, fs, |fs|) == Some(c.layouts[id])
      case Inherits(p) => p in c.layouts && p in d && d[p].Class? && Laid(c, c.layouts[p], fs, |fs|) ==
          Some(c.layouts[id])
      case NotInstance => false
  }

  ghost predicate MeasuredFrom(d: Decls, c: Caches, id: nat)
    requires id in c.unions
  {
    && id in d && d[id].Union? && (forall k :: 0 <= k < |d[id].members| ==> d[id].members[k] in c.layouts)
    && c.unions[id] == Widest(c, d[id].members, |d[id].members|)
  }

  ghost predicate Consistent(d: Decls, c: Caches) {
    && SoundCaches(c)
    && (forall id :: id in c.layouts ==> LaidFrom(d, c, id))
    && (forall id :: id in c.unions ==> MeasuredFrom(d, c, id))
  }

  ghost predicate Grown(c: Caches, e: Caches) {
    && (forall id :: id in c.layouts ==> id in e.layouts && e.layouts[id] == c.layouts[id])
    && (forall id :: id in c.unions ==> id in e.unions && e.unions[id] == c.unions[id])
  }

  lemma ExtentGrown(c: Caches, e: Caches, t: TypeRef)
    requires Grown(c, e) && ExtentOf(c, t).Some?
    ensures ExtentOf(e, t) == ExtentOf(c, t)
  {
  }

  lemma {:induction false} LaidGrown(c: Caches, e: Caches, base: Layout, fields: seq<Field>, n: nat)
    requires Grown(c, e) && n <= |fields| && Laid(c, base, fields, n).Some?
    ensures Laid(e, base, fields, n) == Laid(c, base, fields, n)
  {
    hide ExtentOf, Grown;
    if n > 0 {
      LaidGrown(c, e, base, fields, n - 1);
      if !fields[n - 1].isStatic {
        ExtentGrown(c, e, fields[n - 1].typ);
      }
    }
  }

  lemma {:induction false} WidestGrown(c: Caches, e: Caches, members: seq<nat>, n: nat)
    requires Grown(c, e) && n <= |members| && forall k :: 0 <= k < n ==> members[k] in c.layouts
    ensures (forall k :: 0 <= k < n ==> members[k] in e.layouts) && Widest(e, members, n) == Widest(c, members, n)
  {
    if n > 0 {
      WidestGrown(c, e, members, n - 1);
    }
  }

  lemma SoundGrown(c: Caches, e: Caches, l: Layout)
    requires Grown(c, e) && Sound(c, l)
    ensures Sound(e, l)
  {
    hide ExtentOf;
    forall k | 0 <= k < |l.slots|
      ensures SoundSlot(e, l, l.slots[k]) && SlotEnd(e, l.slots[k]) == SlotEnd(c, l.slots[k])
    {
      assert SoundSlot(c, l, l.slots[k]);
      ExtentGrown(c, e, l.slots[k].typ);
    }
  }

  lemma LaidFromGrown(d: Decls, c: Caches, e: Caches, id: nat)
    requires Grown(c, e) && id in c.layouts && LaidFrom(d, c, id)
    ensures id in e.layouts && LaidFrom(d, e, id)
  {
    hide Laid;
    match d[id]
    case Struct(fs) => LaidGrown(c, e, EMPTY, fs, |fs|);
    case UnionItem(fs) => LaidGrown(c, e, EMPTY, fs, |fs|);
    case Class(fs, base) =>
      if base.Inherits? {
        LaidGrown(c, e, c.layouts[base.id], fs, |fs|);
      } else {
        LaidGrown(c, e, EMPTY, fs, |fs|);
      }
  }

  lemma EmptyIsSound(c: Caches)
    ensures Sound(c, EMPTY)
  {
  }

  /** A new layout made from what is cached keeps the caches consistent. */
  lemma LayoutAdded(d: Decls, c: Caches, id: nat, base: Layout, fields: seq<Field>, l: Layout)
    requires Consistent(d, c) && id !in c.layouts && Sound(c, base) && Laid(c, base, fields, |fields|) == Some(l)
    requires LaidFrom(d, c.(layouts := c.layouts[id := l]), id)
    ensures Grown(c, c.(layouts := c.layouts[id := l])) && Consistent(d, c.(layouts := c.layouts[id := l]))
  {
    hide Laid, LaidFrom, Sound, Widest, ExtentOf;
    var e := c.(layouts := c.layouts[id := l]);
    IsSound(c, base, fields, l);
    forall x | x in e.layouts
      ensures Sound(e, e.layouts[x]) && LaidFrom(d, e, x)
    {
      SoundGrown(c, e, e.layouts[x]);
      if x != id {
        LaidFromGrown(d, c, e, x);
      }
    }
    forall x | x in e.unions
      ensures MeasuredFrom(d, e, x)
    {
      assert MeasuredFrom(d, c, x);
      WidestGrown(c, e, d[x].members, |d[x].members|);
    }
  }

  lemma IsLayoutParts(c: Caches, base: Layout, fields: seq<Field>, l: Layout)
    requires IsLayout(c, base, fields, |fields|, l)
    ensures base.slots <= l.slots && HaveExtents(c, base, l) && Tight(c, base, l) && Largest(c, base, l)
  {
  }

  lemma IsSound(c: Caches, base: Layout, fields: seq<Field>, l: Layout)
    requires SoundCaches(c) && Sound(c, base) && Laid(c, base, fields, |fields|) == Some(l)
    ensures Sound(c, l)
  {
    hide Laid, ExtentOf, Sound, Tight, Largest, HaveExtents, SoundCaches;
    LaidExactly(c, base, fields, |fields|);
    IsLayoutParts(c, base, fields, l);
    LayoutSound(c, base, l);
  }

  lemma MeasureAdded(d: Decls, c: Caches, id: nat)
    requires Consistent(d, c) && id in d && d[id].Union?
    requires forall k :: 0 <= k < |d[id].members| ==> d[id].members[k] in c.layouts
    ensures var e := c.(unions := c.unions[id := Widest(c, d[id].members, |d[id].members|)]);
            Grown(c, e) && Consistent(d, e)
  {
    var w := Widest(c, d[id].members, |d[id].members|);
    var e := c.(unions := c.unions[id := w]);
    WidestPower(c, d[id].members, |d[id].members|);
    SameMeasure(d, c, id);
    hide Laid, LaidFrom, Sound, Widest, MeasuredFrom, WfDecl;
    assert Grown(c, e);
    forall x | x in e.layouts
      ensures Sound(e, e.layouts[x]) && LaidFrom(d, e, x)
    {
      SoundGrown(c, e, e.layouts[x]);
      LaidFromGrown(d, c, e, x);
    }
    forall x | x in e.unions
      ensures MeasuredFrom(d, e, x)
    {
      MeasuredStill(d, c, e, x, id);
    }
  }

  lemma SameMeasure(d: Decls, c: Caches, id: nat)
    requires Consistent(d, c)
    ensures id in c.unions ==> MeasuredFrom(d, c, id) && c.unions[id] == Widest(c, d[id].members, |d[id].members|)
  {
    hide Widest, SoundCaches, LaidFrom;
  }

  lemma MeasuredStill(d: Decls, c: Caches, e: Caches, x: nat, id: nat)
    requires Grown(c, e) && x in e.unions && id in d && d[id].Union?
    requires forall k :: 0 <= k < |d[id].members| ==> d[id].members[k] in c.layouts
    requires if x == id then e.unions[x] == Widest(c, d[id].members, |d[id].members|)
             else x in c.unions && MeasuredFrom(d, c, x) && e.unions[x] == c.unions[x]
    ensures MeasuredFrom(d, e, x)
  {
    WidestGrown(c, e, d[x].members, |d[x].members|);
    hide Widest;
  }

  lemma {:induction false} WidestPower(c: Caches, members: seq<nat>, n: nat)
    requires SoundCaches(c) && n <= |members| && forall k :: 0 <= k < n ==> members[k] in c.layouts
    ensures Widest(c, members, n).alignment in {0, 1, 2, 4, 8}
  {
    hide ExtentOf, SoundSlot;
    if n > 0 {
      WidestPower(c, members, n - 1);
      assert Sound(c, c.layouts[members[n - 1]]);
    }
  }

  // ----- Which types have a layout

  /** Objects of the type have at least one byte. */
  ghost predicate Weighs(d: Decls, id: nat, seen: set<nat>)
    requires WfDecls(d) && id in d && seen <= d.Keys
    decreases d.Keys - seen, 1
  {
    && id !in seen
    && (assert d.Keys - (seen + {id}) < d.Keys - seen;
        assert WfDecl(d, d[id]);
        match d[id]
        case Struct(fs) => exists k :: 0 <= k < |fs| && !fs[k].isStatic && FieldWeighs(d, fs[k], seen + {id})
        case UnionItem(fs) => exists k :: 0 <= k < |fs| && !fs[k].isStatic && FieldWeighs(d, fs[k], seen + {id})
        case Union(ms) => exists k :: 0 <= k < |ms| && Weighs(d, ms[k], seen + {id})
        case Class(_, _) => false)
  }

  ghost predicate FieldWeighs(d: Decls, f: Field, seen: set<nat>)
    requires WfDecls(d) && WfField(d, f) && seen <= d.Keys
    decreases d.Keys - seen, 2
  {
    match f.typ.typeId
    case StructInstance(id) => f.typ.nullable || Weighs(d, id, seen)
    case UnionEnumItem(id) => f.typ.nullable || Weighs(d, id, seen)
    case UnionEnum(id) => Weighs(d, id, seen)
    case Unsupported => false
    case _ => true
  }

  /** Every field that takes room is of a supported type, and of no union without bytes. */
  ghost predicate Fit(d: Decls, id: nat)
    requires WfDecls(d) && id in d
  {
    assert WfDecl(d, d[id]);
    (d[id].Struct? || d[id].UnionItem?) ==>
      forall k :: 0 <= k < |d[id].fields| && !d[id].fields[k].isStatic ==> FitField(d, d[id].fields[k])
  }

  ghost predicate FitField(d: Decls, f: Field)
    requires WfDecls(d) && WfField(d, f)
  {
    && !f.typ.typeId.Unsupported?
    && (f.typ.typeId.UnionEnum? ==> Weighs(d, f.typ.typeId.id, {}))
  }

  /** What prepares an object: a layout, or the extent of a union. */
  ghost predicate Ready(d: Decls, c: Caches, id: nat) {
    id in d && (if d[id].Union? then id in c.unions else id in c.layouts)
  }

  ghost function NotReady(d: Decls, c: Caches): set<nat> {
    set id | id in d && !Ready(d, c, id)
  }

  /** The bytes of a prepared object. */
  ghost function SizeIn(d: Decls, c: Caches, id: nat): nat
    requires Ready(d, c, id)
  {
    if d[id].Union? then c.unions[id].size else c.layouts[id].total
  }

  lemma PlacedTotal(l: Layout, i: nat, t: TypeRef, e: Extent)
    ensures Placed(l, i, t, e).total > 0 <==> l.total > 0 || e.size > 0
  {
  }

  ghost predicate SomeBytes(c: Caches, fields: seq<Field>, n: nat)
    requires n <= |fields|
  {
    exists k :: 0 <= k < n && !fields[k].isStatic && HasBytes(c, fields[k].typ)
  }

  lemma SomeBytesStep(c: Caches, fields: seq<Field>, n: nat)
    requires 0 < n <= |fields|
    ensures SomeBytes(c, fields, n) <==>
            SomeBytes(c, fields, n - 1) || (!fields[n - 1].isStatic && HasBytes(c, fields[n - 1].typ))
  {
    hide HasBytes;
  }

  lemma {:induction false} TotalPositive(c: Caches, fields: seq<Field>, n: nat)
    requires n <= |fields| && Laid(c, EMPTY, fields, n).Some?
    ensures Laid(c, EMPTY, fields, n).value.total > 0 <==> SomeBytes(c, fields, n)
  {
    hide ExtentOf, Placed, SomeBytes;
    if n > 0 {
      TotalPositive(c, fields, n - 1);
      SomeBytesStep(c, fields, n);
      if !fields[n - 1].isStatic {
        PlacedTotal(Laid(c, EMPTY, fields, n - 1).value, n - 1, fields[n - 1].typ,
            ExtentOf(c, fields[n - 1].typ).value);
      }
    } else {
      NoBytes(c, fields);
    }
  }

  lemma NoBytes(c: Caches, fields: seq<Field>)
    ensures !SomeBytes(c, fields, 0)
  {
  }

  ghost predicate HasBytes(c: Caches, t: TypeRef) {
    ExtentOf(c, t).Some? && ExtentOf(c, t).value.size > 0
  }

  lemma {:induction false} WidestPositive(c: Caches, members: seq<nat>, n: nat)
    requires n <= |members| && forall k :: 0 <= k < n ==> members[k] in c.layouts
    ensures Widest(c, members, n).size > 0 <==> exists k :: 0 <= k < n && c.layouts[members[k]].total > 0
  {
    if n > 0 {
      WidestPositive(c, members, n - 1);
      if c.layouts[members[n - 1]].total > 0 {
        assert 0 <= n - 1 < n;
      }
    }
  }

  /** The walk from a node goes on from what its fields and members lead to. */
  lemma ExploredOnward(d: Decls, id: nat, seen: set<nat>, k: nat)
    requires WfDecls(d) && Closed(GraphOf(d)) && id in d && seen <= d.Keys && Explored(GraphOf(d), {}, id, seen)
    requires k < |EdgesOf(d[id])| && EdgesOf(d[id])[k].To?
    ensures id !in seen && EdgesOf(d[id])[k].id in d && Explored(GraphOf(d), {}, EdgesOf(d[id])[k].id, seen + {id})
  {
    var g: Graph := GraphOf(d);
    assert g[id][k].To?;
  }

  /** A prepared object has bytes exactly when its type has some field with bytes, however deep. */
  lemma {:induction false} WeighsMeans(d: Decls, c: Caches, id: nat, seen: set<nat>)
    requires WfDecls(d) && Consistent(d, c) && Closed(GraphOf(d)) && id in d && seen <= d.Keys
    requires Explored(GraphOf(d), {}, id, seen) && Ready(d, c, id) && !d[id].Class?
    ensures SizeIn(d, c, id) > 0 <==> Weighs(d, id, seen)
    decreases d.Keys - seen, 1
  {
    hide ExtentOf, Laid, Widest, SoundCaches, HasBytes, FieldWeighs, SomeBytes, GraphOf, Closed;
    assert id !in seen && d.Keys - (seen + {id}) < d.Keys - seen by {
      ExploredHere(d, id, seen);
    }
    assert WfDecl(d, d[id]);
    if d[id].Union? {
      var ms := d[id].members;
      assert MeasuredFrom(d, c, id);
      WidestPositive(c, ms, |ms|);
      forall k | 0 <= k < |ms|
        ensures c.layouts[ms[k]].total > 0 <==> Weighs(d, ms[k], seen + {id})
      {
        assert EdgesOf(d[id])[k] == To(ms[k]);
        ExploredOnward(d, id, seen, k);
        WeighsMeans(d, c, ms[k], seen + {id});
      }
    } else {
      var fs := d[id].fields;
      assert LaidFrom(d, c, id);
      TotalPositive(c, fs, |fs|);
      SomeBytesMeans(c, fs);
      forall k | 0 <= k < |fs| && !fs[k].isStatic
        ensures HasBytes(c, fs[k].typ) <==> FieldWeighs(d, fs[k], seen + {id})
      {
        LaidExactly(c, EMPTY, fs, |fs|);
        if EdgeOf(fs[k]).To? {
          assert EdgesOf(d[id])[k] == EdgeOf(fs[k]);
          ExploredOnward(d, id, seen, k);
        }
        FieldWeighsMeans(d, c, fs[k], seen + {id});
      }
    }
  }

  lemma ExploredHere(d: Decls, id: nat, seen: set<nat>)
    requires Closed(GraphOf(d)) && id in d && seen <= d.Keys && Explored(GraphOf(d), {}, id, seen)
    ensures id !in seen
  {
  }

  lemma SomeBytesMeans(c: Caches, fs: seq<Field>)
    ensures SomeBytes(c, fs, |fs|) <==> exists k :: 0 <= k < |fs| && !fs[k].isStatic && HasBytes(c, fs[k].typ)
  {
  }

  lemma {:induction false} FieldWeighsMeans(d: Decls, c: Caches, f: Field, seen: set<nat>)
    requires WfDecls(d) && Consistent(d, c) && Closed(GraphOf(d)) && seen <= d.Keys && WfField(d, f)
    requires ExtentOf(c, f.typ).Some?
    requires EdgeOf(f).To? ==> Explored(GraphOf(d), {}, EdgeOf(f).id, seen)
    ensures HasBytes(c, f.typ) <==> FieldWeighs(d, f, seen)
    decreases d.Keys - seen, 2
  {
    hide Laid, Widest, SoundCaches, Weighs, GraphOf, Closed;
    if EdgeOf(f).To? {
      WeighsMeans(d, c, EdgeOf(f).id, seen);
    }
  }

  // ----- Fit types

  /** What is prepared is fit. */
  lemma ReadyFit(d: Decls, c: Caches, id: nat)
    requires WfDecls(d) && Consistent(d, c) && Closed(GraphOf(d)) && id in d && !d[id].Class? && Ready(d, c, id)
    requires Explored(GraphOf(d), {}, id, {})
    ensures Fit(d, id)
  {
    assert WfDecl(d, d[id]);
    if !d[id].Union? {
      var fs := d[id].fields;
      assert LaidFrom(d, c, id);
      hide Laid, Widest, SoundCaches, Weighs, GraphOf, Closed;
      LaidExactly(c, EMPTY, fs, |fs|);
      forall k | 0 <= k < |fs| && !fs[k].isStatic
        ensures FitField(d, fs[k])
      {
        FieldFits(d, c, id, k);
      }
    }
  }

  /** A field with an extent is fit, and one without is not, once its type is prepared. */
  lemma FieldFits(d: Decls, c: Caches, id: nat, k: nat)
    requires WfDecls(d) && Consistent(d, c) && Closed(GraphOf(d)) && id in d && (d[id].Struct? || d[id].UnionItem?)
    requires k < |d[id].fields| && WfField(d, d[id].fields[k])
    requires Explored(GraphOf(d), {}, id, {})
    requires EdgeOf(d[id].fields[k]).To? ==>
              Ready(d, c, EdgeOf(d[id].fields[k]).id) || ExtentOf(c, d[id].fields[k].typ).Some?
    ensures FitField(d, d[id].fields[k]) <==> ExtentOf(c, d[id].fields[k].typ).Some?
  {
    hide Laid, SoundCaches, Weighs, GraphOf, Closed;
    var f := d[id].fields[k];
    if f.typ.typeId.UnionEnum? {
      var u := f.typ.typeId.id;
      assert EdgesOf(d[id])[k] == To(u);
      ExploredOnward(d, id, {}, k);
      ExploredAfresh(d, u, {} + {id});
      WeighsMeans(d, c, u, {});
      UnionExtent(d, c, u);
    }
  }

  lemma UnionExtent(d: Decls, c: Caches, u: nat)
    requires Consistent(d, c) && u in c.unions
    ensures c.unions[u].size > 0 ==> c.unions[u].alignment > 0
  {
    hide Laid, LaidFrom, ExtentOf;
    assert MeasuredFrom(d, c, u);
    var ms := d[u].members;
    if c.unions[u].size > 0 {
      WidestPositive(c, ms, |ms|);
      WidestCovers(c, ms, |ms|);
      assert Sound(c, c.layouts[ms[0]]);
    }
  }

  /** A walk that succeeds on the way from other nodes succeeds on its own. */
  lemma {:induction false} ExploredAfresh(d: Decls, id: nat, seen: set<nat>)
    requires Closed(GraphOf(d)) && id in d && seen <= d.Keys && Explored(GraphOf(d), {}, id, seen)
    ensures Explored(GraphOf(d), {}, id, {})
  {
    ExploredWithLess(GraphOf(d), {}, id, seen, {});
  }

  // ----- Preparation

  datatype Preparation = Prepared | Terminated

  datatype ClassPreparation = ClassPrepared | Malformed | ClassTerminated

  /** Every type that root leads to by value is fit. */
  ghost predicate AllFit(d: Decls, root: nat)
    requires WfDecls(d)
  {
    forall p :: IsPath(GraphOf(d), p) && p[0] == root ==> Fit(d, p[|p| - 1])
  }

  /** What the type objects hold, and the preparation of one of them. */
  class TypeSpace {
    const decls: Decls
    var caches: Caches

    constructor (decls: Decls)
      ensures this.decls == decls && caches == Caches(map[], map[]) && Consistent(decls, caches)
    {
      this.decls := decls;
      caches := Caches(map[], map[]);
    }

    method InitObjectLayout(fields: seq<Field>, base: Layout) returns (r: Option<Layout>)
      ensures r == Laid(caches, base, fields, |fields|)
    {
      hide ExtentOf;
      var slots := base.slots;
      var total: nat, alignment: nat := base.total, base.alignment;
      for i := 0 to |fields|
        invariant Laid(caches, base, fields, i) == Some(Layout(slots, total, alignment))
      {
        if fields[i].isStatic {
          continue;
        }
        var extent := ExtentOf(caches, fields[i].typ);
        if extent.None? {
          LaidNot(caches, base, fields, i + 1, |fields|);
          return None;
        }
        var Extent(size, align) := extent.value;
        if align > 1 {
          var diff := total % align;
          if diff != 0 {
            total := total + align - diff;
          }
        }
        slots := slots + [Slot(total, i, fields[i].typ)];
        total := total + size;
        alignment := Max(align, alignment);
      }
      return Some(Layout(slots, total, alignment));
    }

    method MeasureUnion(members: seq<nat>) returns (e: Extent)
      requires forall k :: 0 <= k < |members| ==> members[k] in caches.layouts
      ensures e == Widest(caches, members, |members|)
    {
      var maxAlignment: nat, maxSize: nat := 0, 0;
      for i := 0 to |members|
        invariant Widest(caches, members, i) == Extent(maxSize, maxAlignment)
      {
        maxAlignment := Max(caches.layouts[members[i]].alignment, maxAlignment);
        maxSize := Max(caches.layouts[members[i]].total, maxSize);
      }
      return Extent(maxSize, maxAlignment);
    }

    /** The end of a node, once all that it contains is prepared. */
    method Finish(id: nat) returns (ok: bool)
      requires WfDecls(decls) && Consistent(decls, caches) && id in decls && !decls[id].Class?
      requires decls[id].Union? ==> forall k :: 0 <= k < |decls[id].members| ==> decls[id].members[k] in caches.layouts
      modifies this`caches
      ensures Consistent(decls, caches) && Grown(old(caches), caches)
      ensures ok ==> Ready(decls, caches, id)
      ensures !ok ==> caches == old(caches) && NoExtent(decls, caches, id)
    {
      hide *;
      if decls[id].Union? {
        var e := MeasureUnion(decls[id].members);
        MeasureAdded(decls, caches, id);
        caches := caches.(unions := caches.unions[id := e]);
        UnionReady(decls, caches, id);
        return true;
      }
      if id !in caches.layouts {
        var r := InitObjectLayout(decls[id].fields, EMPTY);
        if r.None? {
          NotLaid(decls, caches, id);
          SameCaches(caches);
          return false;
        }
        FreshLayout(decls, caches, id, r.value);
        caches := caches.(layouts := caches.layouts[id := r.value]);
      } else {
        SameCaches(caches);
      }
      StructReady(decls, caches, id);
      return true;
    }

    /** Prepares whatever the object leads to by value, and the object last. On a containment graph without
        cycles it comes to an end, and succeeds exactly when every type it leads to is fit: then all of
        them are prepared. */
    method Prepare(root: nat) returns (r: Preparation)
      requires WfDecls(decls) && Consistent(decls, caches) && root in decls && !decls[root].Class?
      requires Acceptable(GraphOf(decls), {}, root)
      modifies this`caches
      ensures Consistent(decls, caches) && Grown(old(caches), caches)
      ensures r == Prepared <==> AllFit(decls, root)
      ensures r == Prepared ==> Acceptable(GraphOf(decls), NotReady(decls, caches), root)
    {
      ghost var g := GraphOf(decls);
      PreparationStarts(decls, caches, root);
      hide *;
      var frames := [Frame(root, 0)];
      while frames != []
        invariant Consistent(decls, caches) && Grown(old(caches), caches)
        invariant Preparing(decls, caches, root, frames) == true
        decreases PreparationWork(decls, caches, root, frames)
      {
        ghost var before := caches;
        var cur := frames[|frames| - 1];
        PreparingFacts(decls, caches, root, frames, cur);
        var edges := EdgesOf(decls[cur.id]);
        if cur.index >= |edges| {
          var ok := Finish(cur.id);
          if !ok {
            CannotPrepare(decls, caches, root, frames, cur);
            return Terminated;
          }
          GrownTwice(old(caches), before, caches);
          Finished(decls, before, caches, root, frames, cur);
          frames := frames[..|frames| - 1];
        } else {
          var edge := edges[cur.index];
          Followed(decls, caches, root, frames, cur, edge);
          frames := frames[..|frames| - 1] + [Frame(cur.id, cur.index + 1)] +
              (if edge.To? then [Frame(edge.id, 0)] else []);
        }
      }
      AllPrepared(decls, caches, root);
      return Prepared;
    }

    /** The layout of a class: a copy of its parent's, followed by its own fields. */
    method InitClassLayout(cls: nat, parent: Option<nat>) returns (ok: bool)
      requires Consistent(decls, caches) && cls in decls && decls[cls].Class? && cls !in caches.layouts
      requires FollowsParent(decls, caches, cls, parent)
      modifies this`caches
      ensures Consistent(decls, caches) && Grown(old(caches), caches)
      ensures ok ==> cls in caches.layouts
      ensures ok ==> caches == old(caches).(layouts := old(caches).layouts[cls := caches.layouts[cls]])
      ensures !ok ==> caches == old(caches)
      ensures Laid(old(caches), BaseLayout(old(caches), parent), decls[cls].fields, |decls[cls].fields|)
              == if ok then Some(caches.layouts[cls]) else None
    {
      hide *;
      SameCaches(caches);
      BaseLayoutIs(caches, parent);
      var base := if parent.Some? && parent.value in caches.layouts then caches.layouts[parent.value] else EMPTY;
      var l := InitObjectLayout(decls[cls].fields, base);
      if l.None? {
        return false;
      }
      ClassLaid(decls, caches, cls, parent, l.value);
      caches := caches.(layouts := caches.layouts[cls := l.value]);
      return true;
    }

    /** The class and its base classes; none when one of them names no class as its base. */
    method CollectBases(cls: nat) returns (ok: bool, unprepared: seq<nat>)
      requires WfDecls(decls) && cls in decls && decls[cls].Class? && ChainEnds(decls, cls)
      ensures ok <==> !WrongBase(decls, Bases(decls, cls)[|Bases(decls, cls)| - 1])
      ensures ok ==> unprepared == Bases(decls, cls)
    {
      ghost var cs := Bases(decls, cls);
      ChainFacts(decls, cs);
      hide *;
      unprepared := [];
      var p := cls;
      while true
        invariant |unprepared| < |cs| && unprepared == cs[..|unprepared|] && p == cs[|unprepared|]
        decreases |cs| - |unprepared|
      {
        ghost var n := |unprepared|;
        Link(decls, cs, n);
        unprepared := unprepared + [p];
        assert unprepared == cs[..n + 1];
        if decls[p].base.NoBase? {
          return true, unprepared;
        }
        if decls[p].base.NotInstance? || !decls[decls[p].base.id].Class? {
          return false, unprepared;
        }
        p := decls[p].base.id;
      }
    }

    /** Lays out the base classes of a class, the class itself last. It ends the process exactly when a
        class without a layout has a field without an extent: the structs and unions that classes hold by
        value are not prepared here. */
    method PrepareClass(cls: nat) returns (r: ClassPreparation)
      requires WfDecls(decls) && Consistent(decls, caches) && cls in decls && decls[cls].Class?
      requires ChainEnds(decls, cls)
      modifies this`caches
      ensures Consistent(decls, caches) && Grown(old(caches), caches)
      ensures r == Malformed <==> WrongBase(decls, Bases(decls, cls)[|Bases(decls, cls)| - 1])
      ensures r == ClassPrepared ==> forall i :: 0 <= i < |Bases(decls, cls)| ==> Bases(decls, cls)[i] in caches.layouts
      ensures r == ClassTerminated <==> r != Malformed && SomeStuck(decls, old(caches), Bases(decls, cls))
    {
      hide *;
      ghost var cs := Bases(decls, cls);
      SameCaches(caches);
      NoneStuck(decls, caches, cs);
      var ok, unprepared := CollectBases(cls);
      if !ok {
        return Malformed;
      }
      assert cs[..|cs|] == cs;
      var parent: Option<nat> := None;
      while unprepared != []
        invariant |unprepared| <= |cs| && unprepared == cs[..|unprepared|]
        invariant parent == if |unprepared| < |cs| then Some(cs[|unprepared|]) else None
        invariant Consistent(decls, caches) && Grown(old(caches), caches)
        invariant Climbing(decls, old(caches), caches, cs, |unprepared|)
      {
        var n := |unprepared| - 1;
        ghost var before := caches;
        var c := unprepared[n];
        ClimbingFacts(decls, old(caches), caches, cs, n, parent);
        if c !in caches.layouts {
          ok := InitClassLayout(c, parent);
          if !ok {
            Stops(decls, old(caches), caches, cs, n, BaseLayout(caches, parent));
            return ClassTerminated;
          }
          Climbs(decls, old(caches), before, cs, n, BaseLayout(before, parent), caches.layouts[c]);
          GrownTwice(old(caches), before, caches);
        } else {
          Passes(decls, old(caches), caches, cs, n);
        }
        parent := Some(c);
        unprepared := unprepared[..n];
        assert unprepared == cs[..n];
      }
      AllClimbed(decls, old(caches), caches, cs);
      return ClassPrepared;
    }
  }

  // ----- The invariant of the preparation

  /** The walk so far, once with no node bad and once with those that are not prepared. */
  ghost predicate Preparing(d: Decls, c: Caches, root: nat, fs: seq<Frame>)
    requires WfDecls(d)
  {
    var g := GraphOf(d);
    && Closed(g) && root in d && !d[root].Class? && Acceptable(g, {}, root)
    && StackOk(g, {}, root, fs) && StackOk(g, NotReady(d, c), root, fs)
    && NoClasses(d, fs)
  }

  ghost predicate NoClasses(d: Decls, fs: seq<Frame>) {
    forall i :: 0 <= i < |fs| ==> fs[i].id in d && !d[fs[i].id].Class?
  }

  ghost function PreparationWork(d: Decls, c: Caches, root: nat, fs: seq<Frame>): nat
    requires WfDecls(d) && Preparing(d, c, root, fs)
  {
    StackWork(GraphOf(d), {}, root, fs)
  }

  lemma PreparationStarts(d: Decls, c: Caches, root: nat)
    requires WfDecls(d) && root in d && !d[root].Class? && Acceptable(GraphOf(d), {}, root)
    ensures Preparing(d, c, root, [Frame(root, 0)]) && Grown(c, c)
  {
    GraphClosed(d);
    Started(GraphOf(d), {}, root);
    Started(GraphOf(d), NotReady(d, c), root);
  }

  lemma PreparingFacts(d: Decls, c: Caches, root: nat, fs: seq<Frame>, cur: Frame)
    requires WfDecls(d) && Preparing(d, c, root, fs) && fs != [] && cur == fs[|fs| - 1]
    ensures cur.id in d && !d[cur.id].Class? && cur.id !in Ids(fs[..|fs| - 1])
    ensures cur.index >= |EdgesOf(d[cur.id])| && d[cur.id].Union? ==>
              forall k :: 0 <= k < |d[cur.id].members| ==> d[cur.id].members[k] in c.layouts
  {
    var g := GraphOf(d);
    StackFacts(g, {}, root, fs, cur);
    ExploredExactly(g, {}, root);
    if cur.id in Ids(fs[..|fs| - 1]) {
      Fails(g, {}, root, fs);
      assert false;
    }
    if cur.index >= |EdgesOf(d[cur.id])| {
      ChildrenReady(d, c, root, fs, cur);
      if d[cur.id].Union? {
        forall k | 0 <= k < |d[cur.id].members|
          ensures d[cur.id].members[k] in c.layouts
        {
          assert EdgesOf(d[cur.id])[k] == To(d[cur.id].members[k]);
          assert WfDecl(d, d[cur.id]);
        }
      }
    }
  }

  /** When a node ends, all that it contains is prepared. */
  lemma ChildrenReady(d: Decls, c: Caches, root: nat, fs: seq<Frame>, cur: Frame)
    requires WfDecls(d) && Preparing(d, c, root, fs) && fs != [] && cur == fs[|fs| - 1]
    requires cur.id in d && cur.index >= |EdgesOf(d[cur.id])|
    ensures forall k :: 0 <= k < |EdgesOf(d[cur.id])| && EdgesOf(d[cur.id])[k].To? ==>
              Ready(d, c, EdgesOf(d[cur.id])[k].id)
  {
    var g: Graph := GraphOf(d);
    var bad := NotReady(d, c);
    forall k | 0 <= k < |EdgesOf(d[cur.id])| && EdgesOf(d[cur.id])[k].To?
      ensures Ready(d, c, EdgesOf(d[cur.id])[k].id)
    {
      assert g[cur.id][k].To?;
      assert Walked(g, bad, cur.id, Ids(fs[..|fs| - 1]), cur.index);
      assert Explored(g, bad, g[cur.id][k].id, Ids(fs[..|fs| - 1]) + {cur.id});
    }
  }

  lemma CannotPrepare(d: Decls, c: Caches, root: nat, fs: seq<Frame>, cur: Frame)
    requires WfDecls(d) && Consistent(d, c) && Preparing(d, c, root, fs) && fs != [] && cur == fs[|fs| - 1]
    requires cur.id in d && cur.index >= |EdgesOf(d[cur.id])| && NoExtent(d, c, cur.id)
    ensures !AllFit(d, root)
  {
    var g := GraphOf(d);
    ChildrenReady(d, c, root, fs, cur);
    var p := StackPath(g, {}, root, fs[..|fs| - 1], cur.id);
    AcceptableOnward(g, {}, p);
    ExploredExactly(g, {}, cur.id);
    hide StackOk, Acceptable, Explored, Consistent, IsPath;
    var k :| 0 <= k < |d[cur.id].fields| && !d[cur.id].fields[k].isStatic && ExtentOf(c, d[cur.id].fields[k].typ).None?;
    assert EdgesOf(d[cur.id])[k] == EdgeOf(d[cur.id].fields[k]);
    assert WfDecl(d, d[cur.id]);
    FieldFits(d, c, cur.id, k);
    assert !Fit(d, cur.id);
  }

  lemma GrownTwice(a: Caches, b: Caches, c: Caches)
    requires Grown(a, b) && Grown(b, c)
    ensures Grown(a, c)
  {
  }

  lemma Finished(d: Decls, c: Caches, e: Caches, root: nat, fs: seq<Frame>, cur: Frame)
    requires WfDecls(d) && Preparing(d, c, root, fs) && fs != [] && cur == fs[|fs| - 1] && Grown(c, e)
    requires cur.id in d && cur.index >= |EdgesOf(d[cur.id])| && cur.id !in Ids(fs[..|fs| - 1]) && Ready(d, e, cur.id)
    ensures Preparing(d, e, root, fs[..|fs| - 1])
    ensures PreparationWork(d, e, root, fs[..|fs| - 1]) < PreparationWork(d, c, root, fs)
  {
    var g := GraphOf(d);
    StackWithFewer(g, NotReady(d, c), NotReady(d, e), root, fs);
    assert cur.id !in NotReady(d, e) && |g[cur.id]| == |EdgesOf(d[cur.id])|;
    hide StackOk, StackWork, Acceptable, Closed, WfDecls, NotReady, EdgesOf;
    SteppedIs(g, fs);
    Step(g, {}, root, fs);
    Step(g, NotReady(d, e), root, fs);
  }

  lemma Followed(d: Decls, c: Caches, root: nat, fs: seq<Frame>, cur: Frame, edge: Edge)
    requires WfDecls(d) && Preparing(d, c, root, fs) && fs != [] && cur == fs[|fs| - 1]
    requires cur.id in d && cur.index < |EdgesOf(d[cur.id])| && cur.id !in Ids(fs[..|fs| - 1])
    requires edge == EdgesOf(d[cur.id])[cur.index]
    ensures var gs := fs[..|fs| - 1] + [Frame(cur.id, cur.index + 1)] + (if edge.To? then [Frame(edge.id, 0)] else []);
            Preparing(d, c, root, gs) && PreparationWork(d, c, root, gs) < PreparationWork(d, c, root, fs)
  {
    var g := GraphOf(d);
    hide StackOk, StackWork, Acceptable, Closed, WfDecls, NoClasses, NotReady, EdgesOf;
    var gs := fs[..|fs| - 1] + [Frame(cur.id, cur.index + 1)] + (if edge.To? then [Frame(edge.id, 0)] else []);
    SteppedIs(g, fs);
    assert gs == Stepped(g, fs);
    Step(g, {}, root, fs);
    Step(g, NotReady(d, c), root, fs);
    NoClassesAdded(d, fs, cur, edge);
  }

  lemma NoClassesAdded(d: Decls, fs: seq<Frame>, cur: Frame, edge: Edge)
    requires WfDecls(d) && fs != [] && cur == fs[|fs| - 1] && NoClasses(d, fs)
    requires cur.id in d && cur.index < |EdgesOf(d[cur.id])| && edge == EdgesOf(d[cur.id])[cur.index]
    ensures NoClasses(d, fs[..|fs| - 1] + [Frame(cur.id, cur.index + 1)] +
              (if edge.To? then [Frame(edge.id, 0)] else []))
  {
    if edge.To? {
      EdgesLead(d, cur.id, cur.index);
    }
  }

  lemma AllPrepared(d: Decls, c: Caches, root: nat)
    requires WfDecls(d) && Consistent(d, c) && Preparing(d, c, root, [])
    ensures AllFit(d, root) && Acceptable(GraphOf(d), NotReady(d, c), root)
  {
    var g: Graph := GraphOf(d);
    ExploredExactly(g, NotReady(d, c), root);
    forall p | IsPath(g, p) && p[0] == root
      ensures Fit(d, p[|p| - 1])
    {
      var id := p[|p| - 1];
      assert id in d && id !in NotReady(d, c);
      AcceptableOnward(g, {}, p);
      ExploredExactly(g, {}, id);
      if |p| > 1 {
        var n := |p| - 2;
        assert To(p[n + 1]) in g[p[n]];
        var k :| 0 <= k < |g[p[n]]| && g[p[n]][k] == To(id);
        EdgesLead(d, p[n], k);
      }
      ReadyFit(d, c, id);
    }
  }

  lemma {:induction false} LaidNot(c: Caches, base: Layout, fields: seq<Field>, m: nat, n: nat)
    requires m <= n <= |fields| && Laid(c, base, fields, m).None?
    ensures Laid(c, base, fields, n).None?
    decreases n - m
  {
    hide ExtentOf;
    if m < n {
      LaidNot(c, base, fields, m + 1, n);
    }
  }

  /** Some field that takes room has no extent. */
  ghost predicate NoExtent(d: Decls, c: Caches, id: nat)
    requires id in d
  {
    (d[id].Struct? || d[id].UnionItem?) &&
    exists k :: 0 <= k < |d[id].fields| && !d[id].fields[k].isStatic && ExtentOf(c, d[id].fields[k].typ).None?
  }

  lemma NotLaid(d: Decls, c: Caches, id: nat)
    requires id in d && (d[id].Struct? || d[id].UnionItem?) && Laid(c, EMPTY, d[id].fields, |d[id].fields|).None?
    ensures NoExtent(d, c, id)
  {
    LaidExactly(c, EMPTY, d[id].fields, |d[id].fields|);
  }

  lemma SameCaches(c: Caches)
    ensures Grown(c, c)
  {
  }

  lemma FreshLayout(d: Decls, c: Caches, id: nat, l: Layout)
    requires Consistent(d, c) && id in d && (d[id].Struct? || d[id].UnionItem?) && id !in c.layouts
    requires Laid(c, EMPTY, d[id].fields, |d[id].fields|) == Some(l)
    ensures Grown(c, c.(layouts := c.layouts[id := l])) && Consistent(d, c.(layouts := c.layouts[id := l]))
  {
    hide Consistent, Sound, Laid;
    var e := c.(layouts := c.layouts[id := l]);
    EmptyIsSound(c);
    assert Grown(c, e);
    LaidGrown(c, e, EMPTY, d[id].fields, |d[id].fields|);
    LayoutAdded(d, c, id, EMPTY, d[id].fields, l);
  }

  lemma UnionReady(d: Decls, c: Caches, id: nat)
    requires id in d && d[id].Union? && id in c.unions
    ensures Ready(d, c, id)
  {
  }

  lemma StructReady(d: Decls, c: Caches, id: nat)
    requires id in d && !d[id].Union? && id in c.layouts
    ensures Ready(d, c, id)
  {
  }

  // ----- Base classes

  ghost function Parent(d: Decls, id: nat): Option<nat> {
    if id in d && d[id].Class? && d[id].base.Inherits? && d[id].base.id in d && d[d[id].base.id].Class?
    then Some(d[id].base.id) else None
  }

  /** A base type that is no class. */
  ghost predicate WrongBase(d: Decls, id: nat) {
    id in d && d[id].Class? && !d[id].base.NoBase? && Parent(d, id).None?
  }

  /** A class and its base classes, up to one without. */
  ghost predicate IsChain(d: Decls, cs: seq<nat>) {
    && Climb(d, cs) && Parent(d, cs[|cs| - 1]).None?
  }

  ghost predicate Climb(d: Decls, cs: seq<nat>) {
    && cs != [] && cs[0] in d && d[cs[0]].Class?
    && (forall i :: 0 <= i < |cs| - 1 ==> Parent(d, cs[i]) == Some(cs[i + 1]))
  }

  ghost predicate ChainEnds(d: Decls, cls: nat) {
    exists cs :: IsChain(d, cs) && cs[0] == cls
  }

  ghost function Bases(d: Decls, cls: nat): (cs: seq<nat>)
    requires ChainEnds(d, cls)
    ensures IsChain(d, cs) && cs[0] == cls
  {
    var cs :| IsChain(d, cs) && cs[0] == cls;
    cs
  }

  /** Without an end to the base classes the preparation collects them for ever. */
  lemma {:induction false} EndlessBases(d: Decls, cls: nat, n: nat) returns (cs: seq<nat>)
    requires cls in d && d[cls].Class? && !ChainEnds(d, cls)
    ensures Climb(d, cs) && cs[0] == cls && |cs| == n + 1 && Parent(d, cs[n]).Some?
  {
    if n == 0 {
      cs := [cls];
      assert Parent(d, cls).None? ==> IsChain(d, cs);
    } else {
      var before := EndlessBases(d, cls, n - 1);
      cs := before + [Parent(d, before[n - 1]).value];
      assert Parent(d, cs[n]).None? ==> IsChain(d, cs);
    }
  }

  lemma ChainFacts(d: Decls, cs: seq<nat>)
    requires IsChain(d, cs)
    ensures cs != [] && cs[..0] == []
  {
  }

  lemma Link(d: Decls, cs: seq<nat>, n: nat)
    requires WfDecls(d) && IsChain(d, cs) && n < |cs|
    ensures cs[n] in d && d[cs[n]].Class? && (d[cs[n]].base.Inherits? ==> d[cs[n]].base.id in d)
    ensures d[cs[n]].base.NoBase? ==> n == |cs| - 1 && !WrongBase(d, cs[|cs| - 1])
    ensures d[cs[n]].base.NotInstance? ==> WrongBase(d, cs[|cs| - 1])
    ensures d[cs[n]].base.Inherits? && !d[d[cs[n]].base.id].Class? ==> WrongBase(d, cs[|cs| - 1])
    ensures d[cs[n]].base.Inherits? && d[d[cs[n]].base.id].Class? ==> n < |cs| - 1 && d[cs[n]].base.id == cs[n + 1]
  {
    assert n > 0 ==> Parent(d, cs[n - 1]) == Some(cs[n]);
    assert n < |cs| - 1 ==> Parent(d, cs[n]) == Some(cs[n + 1]);
    assert WfDecl(d, d[cs[n]]);
  }

  /** A class without a layout and with a field that has no extent. */
  ghost predicate Stuck(d: Decls, c: Caches, id: nat) {
    && id in d && d[id].Class? && id !in c.layouts
    && exists k :: 0 <= k < |d[id].fields| && !d[id].fields[k].isStatic && ExtentOf(c, d[id].fields[k].typ).None?
  }

  ghost predicate SomeStuck(d: Decls, c: Caches, cs: seq<nat>) {
    exists i :: 0 <= i < |cs| && Stuck(d, c, cs[i])
  }

  /** Only classes have been added, none of them stuck, among them those from n on. */
  ghost predicate Climbing(d: Decls, before: Caches, c: Caches, cs: seq<nat>, n: nat) {
    && n <= |cs|
    && c.unions == before.unions
    && (forall id :: id in c.layouts && id !in before.layouts ==> id in d && d[id].Class?)
    && (forall id :: id in before.layouts ==> id in c.layouts && c.layouts[id] == before.layouts[id])
    && (forall id :: id in c.layouts ==> !Stuck(d, before, id))
    && (forall i :: n <= i < |cs| ==> cs[i] in c.layouts)
  }

  lemma NoneStuck(d: Decls, c: Caches, cs: seq<nat>)
    ensures Climbing(d, c, c, cs, |cs|)
  {
  }

  lemma ClimbingFacts(d: Decls, before: Caches, c: Caches, cs: seq<nat>, n: nat, parent: Option<nat>)
    requires IsChain(d, cs) && n < |cs| && !WrongBase(d, cs[|cs| - 1]) && Climbing(d, before, c, cs, n + 1)
    requires parent == if n + 1 < |cs| then Some(cs[n + 1]) else None
    ensures cs[n] in d && d[cs[n]].Class? && FollowsParent(d, c, cs[n], parent)
  {
    assert n > 0 ==> Parent(d, cs[n - 1]) == Some(cs[n]);
    assert n < |cs| - 1 ==> Parent(d, cs[n]) == Some(cs[n + 1]);
  }

  /** The extents of fields do not depend on the layouts of classes. */
  lemma SameExtents(d: Decls, before: Caches, c: Caches, cs: seq<nat>, n: nat, f: Field)
    requires Climbing(d, before, c, cs, n) && WfField(d, f)
    ensures ExtentOf(c, f.typ) == ExtentOf(before, f.typ)
  {
  }

  lemma Stops(d: Decls, before: Caches, c: Caches, cs: seq<nat>, n: nat, base: Layout)
    requires WfDecls(d) && IsChain(d, cs) && n < |cs| && Climbing(d, before, c, cs, n + 1) && cs[n] !in c.layouts
    requires cs[n] in d && d[cs[n]].Class? && Laid(c, base, d[cs[n]].fields, |d[cs[n]].fields|).None?
    ensures SomeStuck(d, before, cs)
  {
    var fs := d[cs[n]].fields;
    LaidExactly(c, base, fs, |fs|);
    var k :| 0 <= k < |fs| && !fs[k].isStatic && ExtentOf(c, fs[k].typ).None?;
    assert WfDecl(d, d[cs[n]]);
    SameExtents(d, before, c, cs, n + 1, fs[k]);
    assert Stuck(d, before, cs[n]);
  }

  ghost function BaseLayout(c: Caches, parent: Option<nat>): Layout {
    if parent.Some? && parent.value in c.layouts then c.layouts[parent.value] else EMPTY
  }

  lemma BaseLayoutIs(c: Caches, parent: Option<nat>)
    ensures BaseLayout(c, parent) == if parent.Some? && parent.value in c.layouts then c.layouts[parent.value]
              else EMPTY
  {
  }

  /** The class laid out just before is the parent of this one. */
  ghost predicate FollowsParent(d: Decls, c: Caches, id: nat, parent: Option<nat>)
    requires id in d && d[id].Class?
  {
    (d[id].base.NoBase? && parent.None?)
    || (parent.Some? && Parent(d, id) == parent && parent.value in c.layouts)
  }

  lemma ClassLaid(d: Decls, c: Caches, id: nat, parent: Option<nat>, l: Layout)
    requires Consistent(d, c) && id in d && d[id].Class? && id !in c.layouts && FollowsParent(d, c, id, parent)
    requires Laid(c, BaseLayout(c, parent), d[id].fields, |d[id].fields|) == Some(l)
    ensures Grown(c, c.(layouts := c.layouts[id := l])) && Consistent(d, c.(layouts := c.layouts[id := l]))
  {
    hide Laid, ExtentOf;
    var (e, base) := (c.(layouts := c.layouts[id := l]), BaseLayout(c, parent));
    EmptyIsSound(c);
    assert Sound(c, base) && Grown(c, e);
    hide Sound;
    LaidGrown(c, e, base, d[id].fields, |d[id].fields|);
    LayoutAdded(d, c, id, base, d[id].fields, l);
  }

  lemma Climbs(d: Decls, before: Caches, c: Caches, cs: seq<nat>, n: nat, base: Layout, l: Layout)
    requires WfDecls(d) && IsChain(d, cs) && n < |cs| && Climbing(d, before, c, cs, n + 1) && cs[n] !in c.layouts
    requires cs[n] in d && d[cs[n]].Class? && Laid(c, base, d[cs[n]].fields, |d[cs[n]].fields|) == Some(l)
    ensures Climbing(d, before, c.(layouts := c.layouts[cs[n] := l]), cs, n)
  {
    var fs := d[cs[n]].fields;
    LaidExactly(c, base, fs, |fs|);
    hide ExtentOf, Laid, IsLayout;
    assert WfDecl(d, d[cs[n]]);
    forall k | 0 <= k < |fs| && !fs[k].isStatic
      ensures ExtentOf(before, fs[k].typ).Some?
    {
      SameExtents(d, before, c, cs, n + 1, fs[k]);
    }
  }

  lemma Passes(d: Decls, before: Caches, c: Caches, cs: seq<nat>, n: nat)
    requires n < |cs| && Climbing(d, before, c, cs, n + 1) && cs[n] in c.layouts
    ensures Climbing(d, before, c, cs, n)
  {
  }

  lemma AllClimbed(d: Decls, before: Caches, c: Caches, cs: seq<nat>)
    requires Climbing(d, before, c, cs, 0)
    ensures (forall i :: 0 <= i < |cs| ==> cs[i] in c.layouts) && !SomeStuck(d, before, cs)
  {
  }

  /** The layout of a derived class starts with all of its parent's, and its own fields come after it. */
  lemma DerivedExtendsParent(d: Decls, c: Caches, id: nat)
    requires Consistent(d, c) && id in c.layouts && Parent(d, id).Some?
    ensures var p := Parent(d, id).value;
            && p in c.layouts && c.layouts[p].slots <= c.layouts[id].slots
            && c.layouts[p].alignment <= c.layouts[id].alignment
            && forall k :: |c.layouts[p].slots| <= k < |c.layouts[id].slots| ==>
                    c.layouts[p].total <= c.layouts[id].slots[k].offset
  {
    var p := Parent(d, id).value;
    assert LaidFrom(d, c, id);
    hide Laid, ExtentOf, Tight, HaveExtents, Largest, Sound;
    var (base, fs, l) := (c.layouts[p], d[id].fields, c.layouts[id]);
    LaidExactly(c, base, fs, |fs|);
    IsLayoutParts(c, base, fs, l);
    LayoutSound(c, base, l);
    LargestIsPower(c, base, l);
    assert Sound(c, base);
  }

  /** The layout of a struct or an item of a union: its fields that are not static, in order, the first at 0 and each
      other at the first multiple of its alignment after the one before. It ends with the last, and has the largest
      alignment. */
  lemma PreparedExactly(d: Decls, c: Caches, id: nat)
    requires Consistent(d, c) && id in c.layouts && id in d && (d[id].Struct? || d[id].UnionItem?)
    ensures SlotsAre(d[id].fields, c.layouts[id]) && Packed(c, c.layouts[id])
  {
    var (fs, l) := (d[id].fields, c.layouts[id]);
    assert LaidFrom(d, c, id);
    LaidExactly(c, EMPTY, fs, |fs|);
    assert SoundCaches(c);
    hide *;
    LaidPacked(c, fs, l);
  }

  /** Every field of a prepared object is inside it, and no byte belongs to two of them. */
  lemma PreparedApart(d: Decls, c: Caches, id: nat, k: nat, j: nat, byte: nat)
    requires Consistent(d, c) && id in c.layouts && k < |c.layouts[id].slots| && j < |c.layouts[id].slots|
    requires c.layouts[id].slots[k].offset <= byte < SlotEnd(c, c.layouts[id].slots[k])
    requires c.layouts[id].slots[j].offset <= byte < SlotEnd(c, c.layouts[id].slots[j])
    ensures j == k && byte < c.layouts[id].total
  {
    assert Sound(c, c.layouts[id]);
    hide *;
    FieldsDisjoint(c, c.layouts[id], k, j, byte);
  }

  // ----- Checked structs

  /** On a cycle of containment the preparation goes on for ever. */
  lemma EndlessPreparation(d: Decls, root: nat, n: nat)
    requires WfDecls(d) && root in d && !Acceptable(GraphOf(d), {}, root)
    ensures Steps(GraphOf(d), [Frame(root, 0)], n) != []
  {
    GraphClosed(d);
    hide WfDecls, GraphOf, Closed, Steps;
    assert Returns(GraphOf(d), root);
    NeverEnds(GraphOf(d), root, n);
  }

  /** The unions that are declared. */
  function UnionsOf(d: Decls): set<nat> {
    set id | id in d && d[id].Union?
  }

  /** A struct, or an item of a union, with a field. */
  ghost predicate HasField(d: Decls, id: nat) {
    id in d && (d[id].Struct? || d[id].UnionItem?) && d[id].fields != []
  }

  lemma CheckedExactly(d: Decls, root: nat)
    ensures Acceptable(GraphOf(d), Empty(GraphOf(d)) + UnionsOf(d), root) <==>
              forall p :: IsPath(GraphOf(d), p) && p[0] == root ==> Simple(p) && HasField(d, p[|p| - 1])
  {
    UnrecursedExactly(GraphOf(d), UnionsOf(d), root);
    forall p | IsPath(GraphOf(d), p) && p[0] == root
      ensures HasField(d, p[|p| - 1]) <==> GraphOf(d)[p[|p| - 1]] != [] && p[|p| - 1] !in UnionsOf(d)
    {
      var id := p[|p| - 1];
      assert id in d && GraphOf(d)[id] == EdgesOf(d[id]);
      assert d[id].Class? ==> EdgesOf(d[id]) == [];
    }
    hide IsPath, Simple, HasField, GraphOf, UnionsOf, Empty, Acceptable;
  }

  /** What loading does to a struct, and then making a first instance of it: the struct is checked, and
      prepared if the check lets it pass. The preparation then comes to an end, and succeeds exactly when
      every type that it leads to is fit. The check passes no struct whose preparation would go on for ever;
      nor one that leads to a struct without fields, the first of which it reads, or to a union. */
  method CheckAndPrepare(space: TypeSpace, root: nat) returns (checked: StructResult, r: Option<Preparation>)
    requires WfDecls(space.decls) && Consistent(space.decls, space.caches)
    requires root in space.decls && space.decls[root].Struct?
    modifies space`caches
    ensures Consistent(space.decls, space.caches) && Grown(old(space.caches), space.caches)
    ensures r.Some? <==> checked == NotRecursed
    ensures var g: Graph := GraphOf(space.decls);
            checked == NotRecursed <==> Acceptable(g, Empty(g) + UnionsOf(space.decls), root)
    ensures checked == NotRecursed <==>
              forall p :: IsPath(GraphOf(space.decls), p) && p[0] == root ==>
                Simple(p) && HasField(space.decls, p[|p| - 1])
    ensures !Acceptable(GraphOf(space.decls), {}, root) ==> r == None
    ensures r.Some? ==> (r.value == Prepared <==> AllFit(space.decls, root))
  {
    hide *;
    GraphClosed(space.decls);
    InGraph(space.decls, root);
    SameCaches(space.caches);
    CheckedExactly(space.decls, root);
    checked := CheckStruct(GraphOf(space.decls), UnionsOf(space.decls), root);
    LessToMeet(GraphOf(space.decls), Empty(GraphOf(space.decls)) + UnionsOf(space.decls), root);
    if checked != NotRecursed {
      return checked, None;
    }
    var p := space.Prepare(root);
    r := Some(p);
  }

  lemma InGraph(d: Decls, id: nat)
    requires id in d
    ensures id in GraphOf(d)
  {
  }

  /** What passes the check has no cycle. */
  lemma LessToMeet(g: Graph, bad: set<nat>, root: nat)
    ensures Acceptable(g, bad, root) ==> Acceptable(g, {}, root)
  {
  }

  /** A struct with a field of a union without items: making an instance of it ends the process. */
  method PreparesEmptyUnion() returns (r: Preparation)
    ensures r == Terminated
  {
    var space := new TypeSpace(HoldsEmptyUnion());
    EmptyUnionGraph();
    r := space.Prepare(0);
  }

  function HoldsEmptyUnion(): Decls {
    map[0 := Struct([Field(TypeRef(UnionEnum(1), false), false)]), 1 := Union([])]
  }

  lemma EmptyUnionGraph()
    ensures WfDecls(HoldsEmptyUnion()) && Acceptable(GraphOf(HoldsEmptyUnion()), {}, 0) && !AllFit(HoldsEmptyUnion(), 0)
  {
    var d := HoldsEmptyUnion();
    var g: Graph := GraphOf(d);
    assert g[0] == [To(1)] && g[1] == [];
    forall p | IsPath(g, p) && p[0] == 0
      ensures Simple(p)
    {
      if |p| > 1 {
        EdgeBetween(g, p, 0);
      }
      if |p| > 2 {
        EdgeBetween(g, p, 1);
      }
    }
    assert WfDecl(d, d[0]) && WfDecl(d, d[1]);
    assert WfField(d, d[0].fields[0]) && !Weighs(d, 1, {});
    assert IsPath(g, [0]) && !FitField(d, d[0].fields[0]);
  }
}
