/** What a collection guarantees, and the ways in which one goes wrong. */
module GcProperties {
  import opened SeqOps
  import opened GcObject
  import opened GcMark
  import opened GcSweep
  import opened GcCollect
  import opened GcRuntime
  import opened GcTypeDefs
  import opened Reachability
  import opened TypeRefs
  import TypeDefs

  lemma MergedIs(rt: Runtime) returns (merged: seq<Object>)
    requires rt.Valid()
    ensures merged == rt.Merged() && Elems(merged) <= rt.Heap() && Distinct(merged)
    ensures forall o :: o in merged <==>
              (o in rt.young && o in Reach(rt.known, rt.roots, rt.young)) || o in rt.persistent
  {
    merged := SurvivorElems(rt.young, rt.persistent, Reach(rt.known, rt.roots, rt.young));
    MergedHeap(rt.young, rt.persistent, rt.YoungDead(), Without(rt.young, rt.YoungDead()));
  }

  /** An object that the host holds is never deleted. */
  lemma HeldNeverDeleted(rt: Runtime, o: Object)
    requires rt.Valid() && o in rt.Heap() && o.hostRefCount != 0
    ensures o in rt.AfterGc()
  {
    var merged := MergedIs(rt);
    if o in rt.young {
      assert o in RootSet(rt.roots, rt.young);
      ReachFacts(rt.known, rt.Heap(), rt.roots, rt.young);
    }
    assert o in merged && o in RootSet(rt.roots, merged);
    ReachFacts(rt.known, rt.Heap(), rt.roots, merged);
    WithoutElems(merged, Elems(merged) - Reach(rt.known, rt.roots, merged));
  }

  /** A full collection that completes leaves exactly the reachable objects. */
  lemma FullGcExact(rt: Runtime)
    requires rt.Valid() && rt.FullGc() && StillCollectable(rt.known, rt.roots, rt.Merged(), rt.YoungDead())
    ensures Elems(rt.AfterGc()) == Reach(rt.known, rt.roots, rt.Merged())
  {
    var merged := MergedIs(rt);
    var reach := Reach(rt.known, rt.roots, merged);
    WithoutElems(merged, Elems(merged) - reach);
    rt.MergedElems();
    forall o | o in reach
      ensures o in Elems(merged)
    {
      assert o in rt.known && !o.freed;
    }
  }

  /** The exact condition under which the full pass runs into a dangling pointer: the young pass,
      which starts from no persistent host reference, has deleted something behind one. */
  lemma DanglingExactly(rt: Runtime)
    requires rt.Valid() && Collectable(rt.known, rt.roots, rt.young)
    ensures (exists o ::
               o in rt.known && o in Reach(rt.known, rt.roots, rt.Merged()) && (o.freed || o in rt.YoungDead()))
       <==> (exists h, o :: h in rt.persistent && h.hostRefCount != 0 && o in rt.known
                && o in ReachSet(Graph(rt.known), {h}) && (o.freed || o in rt.YoungDead()))
  {
    hide *;
    forall o | o in rt.known && (o.freed || o in rt.YoungDead())
      ensures o in Reach(rt.known, rt.roots, rt.Merged()) <==>
        exists h :: h in rt.persistent && h.hostRefCount != 0 && o in ReachSet(Graph(rt.known), {h})
    {
      DanglingFromHost(rt, o);
    }
  }

  lemma DanglingFromHost(rt: Runtime, o: Object)
    requires rt.Valid() && Collectable(rt.known, rt.roots, rt.young) && o in rt.known
    requires (o.freed || o in rt.YoungDead())
    ensures o in Reach(rt.known, rt.roots, rt.Merged()) <==>
      exists h :: h in rt.persistent && h.hostRefCount != 0 && o in ReachSet(Graph(rt.known), {h})
  {
    var merged := MergedIs(rt);
    ReachFromOne(Graph(rt.known), RootSet(rt.roots, merged), o);
    ReachFromOne(Graph(rt.known), RootSet(rt.roots, rt.young), o);
    assert o !in Reach(rt.known, rt.roots, rt.young);
  }

  /** The collection that destroys the runtime: no roots are left, and the full pass is due. */
  method Destroy(rt: Runtime) returns (outcome: Outcome)
    requires rt.Valid()
    modifies rt, rt.known`gcStatus, rt.known`home, rt.known`spinlock, rt.known`nextSameGcset, rt.known`prevSameGcset
    modifies rt.known`nextSameGen, rt.known`prevSameGen, rt.known`freed, rt.known`generation
    modifies rt.youngAlloc`szAllocated, rt.persistentAlloc`szAllocated
    ensures outcome == Completed ==> rt.youngList == null && rt.numYoung == 0
    ensures outcome == Completed ==>
              (rt.persistentList == null <==> forall o :: o in old(rt.Heap()) ==> o.hostRefCount == 0)
  {
    hide *;
    ghost var _, heap, _ := rt.AddReady();
    var r := Roots([], [], true, null, []);
    DeinitingRoots(r);
    rt.SetRoots(r);
    rt.computedGcLimit, rt.computedPersistentGcLimit := 0, 0;
    LeftAtTheEnd(rt);
    outcome := rt.Gc();
    if outcome == Completed {
      rt.ValidFacts();
      NoHead(rt);
    }
  }

  lemma EmptyElems(s: seq<Object>)
    ensures Elems(s) == {} ==> s == []
  {
    if s != [] {
      assert s[0] in Elems(s);
    }
  }

  lemma DeinitingRoots(r: Roots)
    requires r == Roots([], [], true, null, [])
    ensures Objects(RootList(r)) == {}
  {
  }

  lemma NoHead(rt: Runtime)
    requires rt.Valid() && rt.young == []
    ensures rt.youngList == null && rt.numYoung == 0 && (rt.persistentList == null <==> rt.persistent == [])
  {
  }

  /** Without roots a full collection leaves nothing, unless the host still holds something. */
  lemma LeftAtTheEnd(rt: Runtime)
    requires rt.Valid() && Objects(RootList(rt.roots)) == {} && rt.computedPersistentGcLimit == 0
    ensures rt.AfterGc() == [] <==> forall o :: o in rt.Heap() ==> o.hostRefCount == 0
  {
    var merged := MergedIs(rt);
    if o :| o in rt.Heap() && o.hostRefCount != 0 {
      HeldNeverDeleted(rt, o);
    } else {
      assert forall o :: o in merged ==> o in Elems(merged);
      assert RootSet(rt.roots, merged) == {};
      ReachClosedRoots(rt.known, rt.roots, merged, {});
      WithoutElems(merged, Elems(merged));
      assert Elems(merged) - {} == Elems(merged) && rt.AfterGc() == Without(merged, Elems(merged));
      EmptyElems(rt.AfterGc());
    }
  }

  /** t is unreachable, young, and compares the same as e. */
  ghost predicate LostTo(rt: Runtime, t: Object, e: Object)
    requires e.payload.Definition?
    reads rt, rt.known, rt.young
  {
    && t in rt.young && t.kind == TypeDef && t !in Reach(rt.known, rt.roots, rt.young)
    && TypeDefs.Compare(DefOf(t.payload.def), DefOf(e.payload.def)) == TypeDefs.Same
  }

  ghost predicate LostWith(rt: Runtime, t: Object, key: TypeDefs.Reading)
    reads rt, rt.known, rt.young
  {
    t in rt.young && t.kind == TypeDef && t !in Reach(rt.known, rt.roots, rt.young) && t.typeKey == key
  }

  lemma DeadDefinitions(rt: Runtime) returns (d: seq<Object>)
    requires rt.Valid()
    ensures d == DeadList(rt.known, rt.roots, rt.young) && TypeDefsOf(Reverse(d)) == TypeDefsOf(d)
    ensures forall t :: t in TypeDefsOf(d) <==>
              t in rt.young && t.kind == TypeDef && t !in Reach(rt.known, rt.roots, rt.young)
    ensures forall t :: t in TypeDefsOf(d) ==> t in Reverse(d)
    ensures Searchable(rt.known, rt.roots, rt.young, rt.typeDefs) <==>
              SearchesDefined(rt.typeDefs, Reverse(d), |Reverse(d)|)
    ensures rt.YoungTable() == rt.typeDefs - KeysOf(TypeDefsOf(d))
  {
    d := DeadList(rt.known, rt.roots, rt.young);
    WithoutElems(rt.young, Reach(rt.known, rt.roots, rt.young));
    ReversedMembers(d);
    assert forall t :: t in d <==> t in Elems(d);
  }

  lemma ReversedMembers(d: seq<Object>)
    ensures forall t :: t in Reverse(d) <==> t in d
    ensures TypeDefsOf(Reverse(d)) == TypeDefsOf(d)
  {
    ReverseElems(d);
    hide Reverse;
    assert forall t :: t in Reverse(d) <==> t in Elems(Reverse(d));
    assert forall t :: t in d <==> t in Elems(d);
    assert TypeDefsOf(Reverse(d)) <= TypeDefsOf(d) <= TypeDefsOf(Reverse(d));
  }

  /** A key is lost in the young pass exactly when some unreachable young definition has it. */
  lemma EvictedWith(rt: Runtime, key: TypeDefs.Reading)
    requires rt.Valid() && key in rt.typeDefs
    ensures key !in rt.YoungTable() <==> exists t :: LostWith(rt, t, key)
  {
    var d := DeadDefinitions(rt);
    KeyTaken(TypeDefsOf(d), key);
    hide KeysOf, TypeDefsOf, Reverse, Reach, DeadList;
    if key in KeysOf(TypeDefsOf(d)) {
      var t :| t in TypeDefsOf(d) && t.typeKey == key;
      assert LostWith(rt, t, key);
    }
  }

  /** When the comparator decides the searches of the young pass, a registered type definition is lost in it
      exactly when some unreachable young one, itself or a duplicate, compares the same. */
  lemma EvictedExactly(rt: Runtime, key: TypeDefs.Reading)
    requires rt.Valid() && key in rt.typeDefs && Searchable(rt.known, rt.roots, rt.young, rt.typeDefs)
    ensures rt.typeDefs[key].payload.Definition?
    ensures key !in rt.YoungTable() <==> exists t :: LostTo(rt, t, rt.typeDefs[key])
  {
    var d := DeadDefinitions(rt);
    var e := rt.typeDefs[key];
    assert Registered(e, key, rt.young, rt.persistent);
    EvictedWith(rt, key);
    hide DefOf, TypeDefs.Compare, TypeDefs.Read, KeysOf, TypeDefsOf, Reverse, Reach, DeadList, Searchable,
        SearchesDefined;
    forall t | LostTo(rt, t, e)
      ensures key in KeysOf(TypeDefsOf(d))
    {
      SameTaken(rt.typeDefs, Reverse(d), t, key);
    }
    forall t | LostWith(rt, t, key)
      ensures LostTo(rt, t, e)
    {
      SameReading(t, e);
    }
  }

  lemma SameReading(t: Object, e: Object)
    requires t.payload.Definition? && e.payload.Definition? && t.typeKey == e.typeKey
    ensures TypeDefs.Compare(DefOf(t.payload.def), DefOf(e.payload.def)) == TypeDefs.Same
  {
    hide DefOf, TypeDefs.Compare, TypeDefs.Read, TypeDefs.Lex;
    TypeDefs.LexSelf(t.typeKey);
    TypeDefs.CompareIsLex(DefOf(t.payload.def), DefOf(e.payload.def));
  }

  lemma SameTaken(table: TypeTable, todo: seq<Object>, t: Object, key: TypeDefs.Reading)
    requires SearchesDefined(table, todo, |todo|) && t in todo && t.kind == TypeDef
    requires key in table && table[key].kind == TypeDef && table[key].typeKey == key
    requires TypeDefs.Compare(DefOf(t.payload.def), DefOf(table[key].payload.def)) == TypeDefs.Same
    ensures key in KeysOf(TypeDefsOf(todo))
  {
    var n: nat :| n < |todo| && todo[n] == t;
    if key in table - KeysOf(TypeDefsOf(todo[..n])) {
      assert Placeable(table - KeysOf(TypeDefsOf(todo[..n])), t.typeKey);
      ComparedByKey(table[key], t);
      ComparedByKey(t, table[key]);
      assert t in TypeDefsOf(todo);
    } else {
      var x :| x in TypeDefsOf(todo[..n]) && x.typeKey == key;
      assert x in TypeDefsOf(todo);
    }
  }

  lemma KeyTaken(s: set<Object>, key: TypeDefs.Reading)
    ensures key in KeysOf(s) <==> exists t :: t in s && t.typeKey == key
  {
  }

  /** With every young type definition interned, the table loses exactly the deleted ones. */
  lemma InternedTableExact(rt: Runtime, key: TypeDefs.Reading)
    requires rt.Valid() && key in rt.typeDefs
    requires forall t :: t in rt.young && t.kind == TypeDef ==> t.typeKey in rt.typeDefs && rt.typeDefs[t.typeKey] == t
    ensures key in rt.YoungTable() <==> rt.typeDefs[key] in rt.Merged()
  {
    var merged := MergedIs(rt);
    EvictedWith(rt, key);
    ApartLists(rt.young, rt.persistent);
    var e := rt.typeDefs[key];
    assert Registered(e, key, rt.young, rt.persistent);
    hide GenerationOk, RefsKnown, TypesSound, Reach, Idle;
    assert LostWith(rt, e, key) <==> e !in merged;
    if key !in rt.YoungTable() {
      var t :| LostWith(rt, t, key);
      assert t == e;
    }
  }

  /** A closed set of sources is all that is reached from it. */
  lemma ReachClosedRoots(known: set<Object>, r: Roots, objs: seq<Object>, s: set<Object>)
    requires RootSet(r, objs) <= s <= known && Closed(Graph(known), s)
    requires forall o :: o in s ==> o in ReachSet(Graph(known), RootSet(r, objs))
    ensures Reach(known, r, objs) == s
  {
    forall o | o in Reach(known, r, objs)
      ensures o in s
    {
      var n: nat :| o in ReachIn(Graph(known), RootSet(r, objs), n);
      ReachInWithin(Graph(known), RootSet(r, objs), s, n);
    }
  }

  lemma NothingReached(rt: Runtime)
    requires rt.Valid() && Objects(RootList(rt.roots)) == {} && forall o :: o in rt.young ==> o.hostRefCount == 0
    ensures Reach(rt.known, rt.roots, rt.young) == {} && DeadList(rt.known, rt.roots, rt.young) == rt.young
    ensures Collectable(rt.known, rt.roots, rt.young) <==> rt.young == [] || rt.young[|rt.young| - 1].kind != TypeDef
  {
    assert RootSet(rt.roots, rt.young) == {};
    ReachClosedRoots(rt.known, rt.roots, rt.young, {});
    WithoutNothing(rt.young, {});
  }

  /** Without an interned definition, or with none but one that all compare the same as, every search is
      decided. */
  lemma SameKeySearchable(known: set<Object>, r: Roots, objs: seq<Object>, table: TypeTable)
    requires forall k, o :: k in table && o in objs && o.kind == TypeDef ==> k == o.typeKey
    ensures Searchable(known, r, objs, table)
  {
    var d := Reverse(DeadList(known, r, objs));
    ReverseElems(DeadList(known, r, objs));
    WithoutElems(objs, Reach(known, r, objs));
    forall i | 0 <= i < |d| && d[i].kind == TypeDef
      ensures Placeable(table - KeysOf(TypeDefsOf(d[..i])), d[i].typeKey)
    {
      assert d[i] in Elems(d);
      TypeDefs.LexSelf(d[i].typeKey);
    }
  }

  lemma NoTypeDefs(rt: Runtime)
    requires rt.Valid() && rt.typeDefs == map[]
    ensures Searchable(rt.known, rt.roots, rt.young, rt.typeDefs) && rt.YoungTable() == map[] && rt.FullTable() == map[]
    ensures Searchable(rt.known, rt.roots, rt.Merged(), rt.YoungTable())
  {
    rt.MergedKnown();
    SameKeySearchable(rt.known, rt.roots, rt.young, rt.typeDefs);
    SameKeySearchable(rt.known, rt.roots, rt.Merged(), rt.YoungTable());
  }

  /** Fault 1: collecting a single unreachable type definition touches freed memory. */
  method DeadTypeDefFaults() returns (outcome: Outcome)
    ensures outcome == UseAfterFree
  {
    hide *;
    var rt := new Runtime();
    PlainPayloads();
    var t := rt.NewObject(Definition(TypeDefs.ParamTypeList([], false)), 8, 8, []);
    PayloadFacts(t, t.payload);
    NoRoots(rt.roots);
    NothingReached(rt);
    NoTypeDefs(rt);
    outcome := rt.Gc();
  }

  /** An instance: 15 is the position of Instance in the enumeration ObjectKind. */
  function Instance(): (p: Payload)
    ensures !p.Definition?
  {
    OtherPayload(15)
  }

  lemma SameKeys(a: Object, b: Object)
    requires a.payload == b.payload && a.payload.Definition?
    ensures a.kind == TypeDef && b.kind == TypeDef && a.typeKey == b.typeKey
  {
  }

  lemma PlainPayloads()
    ensures forall o :: o !in ReadBy(TypeDefs.ParamTypeList([], false))
    ensures forall key :: Placeable(map[], key)
  {
  }

  lemma NoRoots(r: Roots)
    requires r == Roots([], [], false, null, [])
    ensures Objects(RootList(r)) == {}
  {
  }

  /** With no other root, and held objects that refer to nothing, just the held objects are reached. */
  lemma OnlyHeldReached(rt: Runtime, objs: seq<Object>)
    requires Objects(RootList(rt.roots)) == {} && Elems(objs) <= rt.known
    requires forall o :: o in objs && o.hostRefCount != 0 ==> o.refs == []
    ensures Reach(rt.known, rt.roots, objs) == set o | o in objs && o.hostRefCount != 0
  {
    var s := set o | o in objs && o.hostRefCount != 0;
    assert RootSet(rt.roots, objs) == s;
    assert forall o :: o in s ==> o in objs && o in Elems(objs);
    assert ReachIn(Graph(rt.known), s, 0) == s;
    ReachClosedRoots(rt.known, rt.roots, objs, s);
  }

  lemma FirstHeld(rt: Runtime, x: Object)
    requires rt.Valid() && rt.young == [x] && rt.persistent == [] && Objects(RootList(rt.roots)) == {}
    requires x.hostRefCount != 0 && x.refs == [] && rt.computedPersistentGcLimit == 0 && rt.typeDefs == map[]
    ensures Collectable(rt.known, rt.roots, rt.young) && rt.FullGc()
    ensures StillCollectable(rt.known, rt.roots, rt.Merged(), rt.YoungDead())
    ensures rt.AfterGc() == [x]
    ensures Searchable(rt.known, rt.roots, rt.young, rt.typeDefs) && rt.FullTable() == map[]
    ensures Searchable(rt.known, rt.roots, rt.Merged(), rt.YoungTable())
  {
    NoTypeDefs(rt);
    assert x in rt.young && Elems(rt.young) == {x} && x in rt.Heap();
    OnlyHeldReached(rt, [x]);
    WithoutNothing([x], {});
    assert Reach(rt.known, rt.roots, [x]) == {x} && x in rt.known && !x.freed;
    assert rt.YoungDead() == {} && rt.Merged() == [x];
    assert Without([x], {x}) == [];
  }

  lemma SecondHeld(rt: Runtime, x: Object, y: Object)
    requires rt.Valid() && rt.young == [y] && rt.persistent == [x] && Objects(RootList(rt.roots)) == {}
    requires y.hostRefCount == 0 && y.kind == OtherKind && x.size < rt.computedPersistentGcLimit && rt.typeDefs == map[]
    ensures Collectable(rt.known, rt.roots, rt.young) && !rt.FullGc()
    ensures rt.AfterGc() == [x] && Searchable(rt.known, rt.roots, rt.young, rt.typeDefs)
  {
    NoTypeDefs(rt);
    NothingReached(rt);
    assert rt.YoungDead() == {y};
    assert Without([y], {y}) == [];
    assert rt.Merged() == [x];
    assert SumSizes([x]) == x.size;
  }

  lemma Gone(rt: Runtime, o: Object)
    requires rt.Valid() && rt.young == [] && o in rt.known
    ensures o.freed <==> o !in rt.persistent
  {
  }

  /** A held object that has become persistent. */
  method MakeHeldPersistent() returns (rt: Runtime, x: Object)
    ensures fresh(rt) && fresh(rt.known) && fresh(rt.youngAlloc) && fresh(rt.persistentAlloc)
    ensures rt.Valid() && rt.young == [] && rt.persistent == [x] && Objects(RootList(rt.roots)) == {}
    ensures x.hostRefCount > 0 && x.kind == OtherKind && x.size < rt.computedPersistentGcLimit && x in rt.known
    ensures rt.typeDefs == map[]
  {
    hide *;
    rt := new Runtime();
    NoRoots(rt.roots);
    x := rt.NewObject(Instance(), 8, 8, []);
    PayloadFacts(x, Instance());
    InHeap(rt, x);
    rt.Hold(x);
    FirstHeld(rt, x);
    var outcome := rt.Gc();
    OneSize(rt, x);
  }

  lemma OneSize(rt: Runtime, x: Object)
    requires rt.Valid() && rt.young == [] && rt.persistent == [x]
    ensures rt.persistentAlloc.szAllocated == x.size && x in rt.known
  {
    assert SumSizes([x]) == x.size;
    assert x in rt.persistent && x in Elems(rt.persistent);
  }

  /** Fault 2: an object that the host holds is left referring to a deleted one. */
  method HeldObjectDangles() returns (x: Object, y: Object)
    ensures x.hostRefCount > 0 && !x.freed && y in x.refs && y.freed
  {
    hide *;
    var rt: Runtime;
    rt, x := MakeHeldPersistent();
    y := rt.NewObject(Instance(), 16, 100, []);
    PayloadFacts(y, Instance());
    InHeap(rt, x);
    InHeap(rt, y);
    rt.SetRefs(x, [y]);
    SecondHeld(rt, x, y);
    var outcome := rt.Gc();
    Gone(rt, x);
    Gone(rt, y);
  }

  lemma InHeap(rt: Runtime, o: Object)
    requires rt.Valid() && (o in rt.young || o in rt.persistent)
    ensures o in rt.Heap() && o in rt.known && (o in rt.persistent ==> Objects(RootList(rt.roots)) <= rt.known)
  {
  }

  lemma DuplicateSwept(rt: Runtime, a: Object, b: Object, c: Object)
    requires rt.Valid() && rt.young == [b, a, c] && rt.persistent == [] && Objects(RootList(rt.roots)) == {}
    requires a.hostRefCount != 0 && b.hostRefCount == 0 && c.hostRefCount == 0 && a.refs == [] && c.kind == OtherKind
    requires a.kind == TypeDef && b.kind == TypeDef && a.typeKey == b.typeKey && rt.typeDefs.Keys == {a.typeKey}
    ensures Reach(rt.known, rt.roots, rt.young) == {a} && DeadList(rt.known, rt.roots, rt.young) == [b, c]
    ensures rt.Merged() == [a] && a in rt.Heap() && a in rt.known && !a.freed && a != b && a != c
    ensures a.typeKey !in rt.YoungTable()
    ensures Collectable(rt.known, rt.roots, rt.young) && Searchable(rt.known, rt.roots, rt.young, rt.typeDefs)
  {
    SameKeySearchable(rt.known, rt.roots, rt.young, rt.typeDefs);
    var objs := rt.young;
    assert Distinct(objs) by { ApartLists(objs, rt.persistent); }
    assert objs[0] == b && objs[1] == a && objs[2] == c;
    assert forall o :: o in objs <==> o == a || o == b || o == c;
    assert a in rt.Heap() by { assert a in Elems(objs); }
    OnlyHeldReached(rt, objs);
    assert Reach(rt.known, rt.roots, objs) == {a};
    OneOut(a, b, c);
    assert LostWith(rt, b, a.typeKey);
    EvictedWith(rt, a.typeKey);
  }

  lemma OneOut(a: Object, b: Object, c: Object)
    requires a != b && a != c && b != c
    ensures Without([b, a, c], {a}) == [b, c]
    ensures Without([b, a, c], Elems([b, a, c]) - {a}) == [a]
  {
    var dead := Elems([b, a, c]) - {a};
    assert [b, a, c][1..] == [a, c] && [a, c][1..] == [c] && [c][1..] == [];
    assert Without([c], {a}) == [c] && Without([a, c], {a}) == [c];
    assert c in [b, a, c] && c in dead && b in [b, a, c] && b in dead && a !in dead;
    assert Without([c], dead) == [] && [a] + Without([c], dead) == [a] && Without([a, c], dead) == [a];
  }

  lemma DuplicateLost(rt: Runtime, a: Object, b: Object, c: Object)
    requires rt.Valid() && rt.young == [b, a, c] && rt.persistent == [] && Objects(RootList(rt.roots)) == {}
    requires a.hostRefCount != 0 && b.hostRefCount == 0 && c.hostRefCount == 0 && a.refs == [] && c.kind == OtherKind
    requires a.kind == TypeDef && b.kind == TypeDef && a.typeKey == b.typeKey && rt.typeDefs.Keys == {a.typeKey}
    requires rt.computedPersistentGcLimit == 0
    ensures Collectable(rt.known, rt.roots, rt.young) && rt.FullGc()
    ensures StillCollectable(rt.known, rt.roots, rt.Merged(), rt.YoungDead())
    ensures rt.AfterGc() == [a] && a.typeKey !in rt.FullTable() && a in rt.known
    ensures Searchable(rt.known, rt.roots, rt.young, rt.typeDefs)
    ensures Searchable(rt.known, rt.roots, rt.Merged(), rt.YoungTable())
  {
    DuplicateSwept(rt, a, b, c);
    SameKeySearchable(rt.known, rt.roots, [a], rt.YoungTable());
    assert Elems([a]) == {a} && a in [a];
    OnlyHeldReached(rt, [a]);
    assert Reach(rt.known, rt.roots, [a]) == {a};
    WithoutNothing([a], {});
    assert Elems([a]) - {a} == {} && Without([a], {}) == [a];
    assert Without([a], {a}) == [];
  }

  /** A registered and held type definition in front of an older object. */
  method MakeInterned() returns (rt: Runtime, a: Object, c: Object)
    ensures fresh(rt) && fresh(rt.known) && fresh(rt.youngAlloc) && fresh(rt.persistentAlloc)
    ensures rt.Valid() && rt.young == [a, c] && rt.persistent == [] && Objects(RootList(rt.roots)) == {}
    ensures a.hostRefCount != 0 && c.hostRefCount == 0 && a.refs == [] && c.kind == OtherKind && {a, c} <= rt.known
    ensures a.payload == Definition(TypeDefs.ParamTypeList([], false)) && rt.typeDefs.Keys == {a.typeKey}
    ensures rt.computedPersistentGcLimit == 0
  {
    hide *;
    rt := new Runtime();
    NoRoots(rt.roots);
    c := rt.NewObject(Instance(), 8, 8, []);
    PayloadFacts(c, Instance());
    PlainPayloads();
    a := rt.NewObject(Definition(TypeDefs.ParamTypeList([], false)), 16, 8, []);
    PayloadFacts(a, a.payload);
    InHeap(rt, a);
    var registered := rt.RegisterTypeDef(a);
    rt.Hold(a);
  }

  /** Fault 3: sweeping an unregistered type definition evicts the live one that it equals. */
  method EqualTypeDefEvicts() returns (rt: Runtime, a: Object, outcome: Outcome)
    ensures fresh(rt) && outcome == Completed
    ensures rt.persistent == [a] && a.kind == TypeDef && a.hostRefCount > 0 && a.typeKey !in rt.typeDefs
  {
    hide *;
    var c;
    rt, a, c := MakeInterned();
    PlainPayloads();
    var b := rt.NewObject(Definition(TypeDefs.ParamTypeList([], false)), 24, 8, []);
    SameKeys(a, b);
    DuplicateLost(rt, a, b, c);
    outcome := rt.Gc();
  }

  // ----- Tuples of which one begins the other

  /** A live tuple pair of the heap types a and b, and the dead tuple single of a, older than none of them. */
  ghost predicate TupleBesideTuple(rt: Runtime, a: Object, b: Object, pair: Object, single: Object, last: Object)
    reads rt, rt.known, rt.youngAlloc, rt.persistentAlloc
  {
    && rt.Valid() && rt.young == [single, pair, b, a, last] && rt.persistent == [] && Objects(RootList(rt.roots)) == {}
    && a.payload.HeapType? && b.payload.HeapType? && last.kind == OtherKind
    && pair.payload == Definition(TypeDefs.Tuple([a, b])) && single.payload == Definition(TypeDefs.Tuple([a]))
    && pair.refs == [a, b] && single.refs == [a] && a.refs == [] && b.refs == [] && last.refs == []
    && pair.hostRefCount != 0 && single.hostRefCount == 0
    && a.hostRefCount == 0 && b.hostRefCount == 0 && last.hostRefCount == 0
    && rt.typeDefs.Keys == {pair.typeKey}
  }

  lemma PairReaches(known: set<Object>, r: Roots, objs: seq<Object>, a: Object, b: Object, pair: Object)
    requires Objects(RootList(r)) == {} && {a, b, pair} <= known && pair in objs && pair.hostRefCount != 0
    requires forall o :: o in objs && o != pair ==> o.hostRefCount == 0
    requires pair.refs == [a, b] && a.refs == [] && b.refs == []
    ensures Reach(known, r, objs) == {pair, a, b}
  {
    var s: set<Object>, root: set<Object>, g: map<Object, set<Object>> := {pair, a, b}, {pair}, Graph(known);
    assert RootSet(r, objs) == root;
    assert ReachIn<Object>(g, root, 0) == root;
    assert g[pair] == {a, b} && g[a] == {} && g[b] == {};
    assert a in ReachIn<Object>(g, root, 1) && b in ReachIn<Object>(g, root, 1);
    ReachClosedRoots(known, r, objs, s);
  }

  lemma FiveReached(rt: Runtime, a: Object, b: Object, pair: Object, single: Object, last: Object)
    requires TupleBesideTuple(rt, a, b, pair, single, last)
    ensures DeadList(rt.known, rt.roots, rt.young) == [single, last]
    ensures Collectable(rt.known, rt.roots, rt.young)
  {
    var objs := rt.young;
    ApartLists(objs, rt.persistent);
    assert objs[0] == single && objs[1] == pair && objs[2] == b && objs[3] == a && objs[4] == last;
    assert forall o :: o in objs ==> o in Elems(objs) && o in rt.Heap() && o in rt.known && !o.freed;
    PairReaches(rt.known, rt.roots, objs, a, b, pair);
    hide Reach, GenerationOk, TypesSound, RefsKnown, Idle;
    TwoOut(single, pair, b, a, last);
  }

  lemma TwoOut(single: Object, pair: Object, b: Object, a: Object, last: Object)
    requires Distinct([single, pair, b, a, last])
    ensures Without([single, pair, b, a, last], {pair, a, b}) == [single, last]
  {
    var s := [single, pair, b, a, last];
    assert s[0] == single && s[1] == pair && s[2] == b && s[3] == a && s[4] == last;
    assert s[1..] == [pair, b, a, last] && s[1..][1..] == [b, a, last] && s[2..][1..] == [a, last] && [a, last][1..] ==
            [last];
    var k := {pair, a, b};
    assert Without([last], k) == [last];
    assert Without([a, last], k) == [last];
    assert Without([b, a, last], k) == [last];
    assert Without([pair, b, a, last], k) == [last];
  }

  lemma KeysNotApart(a: Object, b: Object, pair: Object, single: Object)
    requires pair.payload == Definition(TypeDefs.Tuple([a, b])) && single.payload == Definition(TypeDefs.Tuple([a]))
    ensures !TypeDefs.Apart(pair.typeKey, single.typeKey)
  {
    TypeDefs.TupleBeginsTuple(TypeRefAt(a), TypeRefAt(b), TypeRefAt(b));
    assert TypeRefsAt([a]) == [TypeRefAt(a)] && TypeRefsAt([a, b]) == [TypeRefAt(a), TypeRefAt(b)];
    ComparedByKey(pair, single);
  }

  lemma Unsearchable(known: set<Object>, r: Roots, objs: seq<Object>, table: TypeTable, single: Object, last: Object,
                  key: TypeDefs.Reading)
    requires DeadList(known, r, objs) == [single, last] && single.kind == TypeDef && last.kind != TypeDef
    requires key in table && !TypeDefs.Apart(key, single.typeKey)
    ensures !Searchable(known, r, objs, table)
  {
    var d := Reverse([single, last]);
    assert [single, last][1..] == [last] && [last][1..] == [] && Reverse([last]) == [last];
    assert d == [last, single] && d[..1] == [last] && TypeDefsOf([last]) == {};
    assert table - KeysOf({}) == table;
    assert !Placeable(table - KeysOf(TypeDefsOf(d[..1])), d[1].typeKey);
  }

  /** Two heap types in front of an older object. */
  method MakeHeapTypes() returns (rt: Runtime, a: Object, b: Object, last: Object)
    ensures fresh(rt) && fresh(rt.known) && fresh(rt.youngAlloc) && fresh(rt.persistentAlloc)
    ensures rt.Valid() && rt.young == [b, a, last] && rt.persistent == [] && Objects(RootList(rt.roots)) == {}
    ensures a.payload == HeapType(Plain(I8), 0) && b.payload == HeapType(Plain(I16), 0) && last.payload == Instance()
    ensures a.refs == [] && b.refs == [] && last.refs == []
    ensures a.hostRefCount == 0 && b.hostRefCount == 0 && last.hostRefCount == 0
    ensures {a, b} <= rt.Heap() && a.kind == OtherKind && b.kind == OtherKind && {a, b, last} <= rt.known
    ensures rt.typeDefs == map[]
  {
    hide *;
    rt := new Runtime();
    NoRoots(rt.roots);
    last := rt.NewObject(Instance(), 8, 8, []);
    a := rt.NewObject(HeapType(Plain(I8), 0), 16, 8, []);
    b := rt.NewObject(HeapType(Plain(I16), 0), 24, 8, []);
    PayloadFacts(a, a.payload);
    PayloadFacts(b, b.payload);
    InHeap(rt, a);
    InHeap(rt, b);
  }

  /** A registered and held pair of two heap types, in front of an older object. */
  method MakePair() returns (rt: Runtime, a: Object, b: Object, pair: Object, last: Object)
    ensures fresh(rt) && fresh(rt.known) && fresh(rt.youngAlloc) && fresh(rt.persistentAlloc)
    ensures rt.Valid() && rt.young == [pair, b, a, last] && rt.persistent == [] && Objects(RootList(rt.roots)) == {}
    ensures a.payload == HeapType(Plain(I8), 0) && b.payload == HeapType(Plain(I16), 0) && last.payload == Instance()
    ensures pair.payload == Definition(TypeDefs.Tuple([a, b])) && rt.typeDefs.Keys == {pair.typeKey}
    ensures pair.refs == [a, b] && a.refs == [] && b.refs == [] && last.refs == []
    ensures pair.hostRefCount != 0 && a.hostRefCount == 0 && b.hostRefCount == 0 && last.hostRefCount == 0
    ensures a in rt.Heap() && a.kind == OtherKind && {a, b, pair, last} <= rt.known
  {
    hide *;
    rt, a, b, last := MakeHeapTypes();
    TupleReads(a, b);
    pair := rt.NewObject(Definition(TypeDefs.Tuple([a, b])), 32, 8, [a, b]);
    PayloadFacts(pair, pair.payload);
    InHeap(rt, pair);
    PlainPayloads();
    var registered := rt.RegisterTypeDef(pair);
    rt.Hold(pair);
    InHeap(rt, a);
  }

  /** Fault 4: the search for a dead tuple that begins a live one finds the live one, which would be taken out of
      the set, or reads past its end (TypeSearch.DescendsToLonger). */
  method TupleDisorders() returns (outcome: Outcome)
    ensures outcome == Disordered
  {
    hide *;
    var rt, a, b, pair, last := MakePair();
    TupleReads(a, b);
    var single := rt.NewObject(Definition(TypeDefs.Tuple([a])), 40, 8, [a]);
    PayloadFacts(single, single.payload);
    PayloadFacts(last, last.payload);
    Five(rt, a, b, pair, single, last);
    FiveReached(rt, a, b, pair, single, last);
    KeysNotApart(a, b, pair, single);
    Unsearchable(rt.known, rt.roots, rt.young, rt.typeDefs, single, last, pair.typeKey);
    outcome := rt.Gc();
  }

  lemma TupleReads(a: Object, b: Object)
    ensures forall o :: o in ReadBy(TypeDefs.Tuple([a, b])) ==> o in [a, b]
    ensures forall o :: o in ReadBy(TypeDefs.Tuple([a])) ==> o in [a]
  {
  }

  lemma Five(rt: Runtime, a: Object, b: Object, pair: Object, single: Object, last: Object)
    requires rt.Valid() && rt.young == [single, pair, b, a, last] && rt.persistent == []
    requires Objects(RootList(rt.roots)) == {}
    requires a.payload.HeapType? && b.payload.HeapType? && last.kind == OtherKind
    requires pair.payload == Definition(TypeDefs.Tuple([a, b])) && single.payload == Definition(TypeDefs.Tuple([a]))
    requires pair.refs == [a, b] && single.refs == [a] && a.refs == [] && b.refs == [] && last.refs == []
    requires pair.hostRefCount != 0 && single.hostRefCount == 0
    requires a.hostRefCount == 0 && b.hostRefCount == 0 && last.hostRefCount == 0
    requires rt.typeDefs.Keys == {pair.typeKey}
    ensures TupleBesideTuple(rt, a, b, pair, single, last)
  {
  }
}
