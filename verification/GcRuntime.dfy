/** The runtime's two generations, their accounting, and the generational collection
    (slake/rt/gc.cc, slake/runtime.cc). */
module GcRuntime {
  import opened SeqOps
  import opened GcObject
  import opened GcMark
  import opened GcSweep
  import opened GcCollect
  import opened GcTypeDefs
  import opened TypeSearch
  import TypeDefs

  /** One generation: its doubly linked list, its object count and its byte count. */
  ghost predicate GenerationOk(s: seq<Object>, list: Object?, num: nat, alloc: PoolAlloc, g: Generation)
    reads s, alloc
  {
    && GenLinked(s) && Distinct(s) && list == At(s, 0) && num == |s| && alloc.szAllocated == SumSizes(s)
    && (forall o :: o in s ==> o.generation == g)
  }

  ghost predicate Registered(t: Object, key: TypeDefs.Reading, young: seq<Object>, persistent: seq<Object>) {
    (t in young || t in persistent) && t.typeKey == key && t.kind == TypeDef
  }

  /** Registered type definitions are live and sit at their own key; persistent type definitions
      are made of persistent objects, so the young pass takes nothing from them. */
  ghost predicate TypesSound(table: TypeTable, young: seq<Object>, persistent: seq<Object>)
    reads young`refs, persistent`refs
  {
    && (forall key :: key in table ==> Registered(table[key], key, young, persistent)) && PairwiseApart(table.Keys)
    && (forall o :: o in persistent && o.kind == TypeDef ==> MadeOfOthers(o, Elems(persistent)))
    && (forall o :: o in young && o.kind == TypeDef ==> MadeOfOthers(o, Elems(young) + Elems(persistent)))
  }

  datatype SpliceArgs = SpliceArgs(s: seq<Object>, t: seq<Object>, heap: set<Object>)

  /** Linking the end of p.s to the head of p.t joins the two lists. */
  twostate lemma Spliced(p: SpliceArgs)
    requires old(GenLinked(p.s)) && old(GenLinked(p.t)) && Distinct(p.s + p.t) && Elems(p.s) + Elems(p.t) <= p.heap
    requires forall o {:trigger o.nextSameGen} :: o in p.heap ==>
               o.nextSameGen == if o == At(p.s, |p.s| - 1) then At(p.t, 0) else old(o.nextSameGen)
    requires forall o {:trigger o.prevSameGen} :: o in p.heap ==>
               o.prevSameGen == if o == At(p.t, 0) then At(p.s, |p.s| - 1) else old(o.prevSameGen)
    ensures GenLinked(p.s + p.t)
  {
    var r := p.s + p.t;
    forall i | 0 <= i < |r|
      ensures r[i].nextSameGen == At(r, i + 1) && r[i].prevSameGen == At(r, i - 1)
    {
      if i < |p.s| {
        assert r[i] == p.s[i] && r[i] in Elems(p.s);
        assert old(p.s[i].nextSameGen) == At(p.s, i + 1) && old(p.s[i].prevSameGen) == At(p.s, i - 1);
        assert r[i] == At(p.s, |p.s| - 1) <==> i == |p.s| - 1;
        assert p.t != [] ==> r[|p.s|] == p.t[0];
      } else {
        var j := i - |p.s|;
        assert r[i] == p.t[j] && r[i] in Elems(p.t);
        assert old(p.t[j].nextSameGen) == At(p.t, j + 1) && old(p.t[j].prevSameGen) == At(p.t, j - 1);
        assert r[i] == At(p.t, 0) <==> i == |p.s|;
        assert p.s != [] ==> r[|p.s| - 1] == p.s[|p.s| - 1];
      }
    }
  }

  ghost function LastOf(s: seq<Object>): Object? {
    At(s, |s| - 1)
  }

  lemma TypesFit(table: TypeTable, young: seq<Object>, persistent: seq<Object>, heap: set<Object>)
    requires TypesSound(table, young, persistent) && heap == Elems(young) + Elems(persistent)
    ensures TypesOk(table, young, heap)
  {
    hide PairwiseApart;
  }

  /** What the young pass leaves of the type definitions. */
  lemma TypesAfter(table: TypeTable, young: seq<Object>, persistent: seq<Object>, heap: set<Object>, reach: set<Object>)
    requires TypesSound(table, young, persistent) && heap == Elems(young) + Elems(persistent)
    requires ReachClosed(heap, reach) && Distinct(young + persistent)
    ensures TypesSound(table - KeysOf(TypeDefsOf(Without(young, reach))), [], Without(young, Elems(young) - reach) +
              persistent)
  {
    hide TypeDefs.Apart;
    var gone := TypeDefsOf(Without(young, reach));
    var left := SurvivorElems(young, persistent, reach);
    assert (table - KeysOf(gone)).Keys <= table.Keys;
    forall key | key in table - KeysOf(gone)
      ensures Registered(table[key], key, [], left)
    {
      var t := table[key];
      assert Registered(t, key, young, persistent);
      assert t !in gone;
    }
    forall o | o in left && o.kind == TypeDef
      ensures MadeOfOthers(o, Elems(left))
    {
      if o in young && o !in persistent {
        assert MadeOfOthers(o, heap) && o in reach;
      }
    }
  }

  lemma TypesGrow(table: TypeTable, young: seq<Object>, persistent: seq<Object>, obj: Object)
    requires TypesSound(table, young, persistent)
    requires obj.kind == TypeDef ==> forall r :: r in obj.refs && r != null ==>
              (r in young || r in persistent) && r.kind != TypeDef
    requires forall r :: r in ReadWith(obj) ==> r in obj.refs
    ensures TypesSound(table, [obj] + young, persistent)
  {
    forall key | key in table
      ensures Registered(table[key], key, [obj] + young, persistent)
    {
      assert Registered(table[key], key, young, persistent);
    }
  }

  lemma RefsGrow(known: set<Object>, heap: set<Object>, obj: Object)
    requires RefsKnown(known, heap) && obj !in known && !obj.freed
    requires forall r :: r in obj.refs && r != null ==> r in heap
    ensures RefsKnown(known + {obj}, heap + {obj})
  {
  }

  lemma JoinFront(obj: Object, young: seq<Object>, persistent: seq<Object>) returns (r: seq<Object>)
    requires Distinct(young + persistent) && obj !in Elems(young) + Elems(persistent)
    ensures r == ([obj] + young) + persistent && Distinct(r)
    ensures Elems([obj] + young) + Elems(persistent) == Elems(young) + Elems(persistent) + {obj}
  {
    r := ([obj] + young) + persistent;
    assert r == [obj] + (young + persistent);
    assert forall o :: o in young + persistent ==> o in young || o in persistent;
    JoinApart([obj], young + persistent);
    assert Elems([obj] + young) == {obj} + Elems(young);
  }

  lemma SurvivorElems(young: seq<Object>, persistent: seq<Object>, reach: set<Object>) returns (left: seq<Object>)
    ensures left == Without(young, Elems(young) - reach) + persistent
    ensures forall o :: o in left <==> (o in young && o in reach) || o in persistent
    ensures forall o :: o in Without(young, reach) <==> o in young && o !in reach
  {
    left := Without(young, Elems(young) - reach) + persistent;
    WithoutElems(young, Elems(young) - reach);
    WithoutElems(young, reach);
    assert forall o :: o in left <==> o in Without(young, Elems(young) - reach) || o in persistent;
  }

  lemma PayloadFacts(obj: Object, payload: Payload)
    requires obj.payload == payload
    ensures obj.kind == if payload.Definition? then TypeDef else OtherKind
    ensures ReadWith(obj) == if payload.Definition? then ReadBy(payload.def) else {}
  {
  }

  datatype Registration = Interned | AlreadyThere | ReadPastEnd

  class Runtime {
    var youngList: Object?
    var persistentList: Object?
    var numYoung: nat
    var numPersistent: nat
    const youngAlloc: PoolAlloc
    const persistentAlloc: PoolAlloc
    var typeDefs: TypeTable
    var roots: Roots
    var memUsedAfterLastGc: nat
    var computedGcLimit: nat
    var persistentMemUsedAfterLastGc: nat
    var computedPersistentGcLimit: nat
    ghost var young: seq<Object>
    ghost var persistent: seq<Object>
    /** Every object there is or has been. */
    ghost var known: set<Object>

    constructor ()
      ensures Valid() && fresh(youngAlloc) && fresh(persistentAlloc)
      ensures young == [] && persistent == [] && known == {} && typeDefs == map[]
      ensures computedGcLimit == 0 && computedPersistentGcLimit == 0 && roots == Roots([], [], false, null, [])
    {
      youngList, persistentList, numYoung, numPersistent := null, null, 0, 0;
      memUsedAfterLastGc, computedGcLimit := 0, 0;
      persistentMemUsedAfterLastGc, computedPersistentGcLimit := 0, 0;
      typeDefs, roots := map[], Roots([], [], false, null, []);
      young, persistent, known := [], [], {};
      youngAlloc := new PoolAlloc();
      persistentAlloc := new PoolAlloc();
      new;
      assert Objects(RootList(roots)) == {};
    }

    ghost function Heap(): set<Object>
      reads `young, `persistent
    {
      Elems(young) + Elems(persistent)
    }

    ghost predicate Apart()
      reads `young, `persistent, `known, `roots
    {
      && Heap() <= known && Distinct(young + persistent) && youngAlloc != persistentAlloc
      && Objects(RootList(roots)) <= known
    }

    /** The two lists, the counters and the bytes agree, and nothing is left of a collection. */
    ghost predicate ListsValid()
      reads `young, `persistent, `known, `roots, `youngList, `persistentList, `numYoung, `numPersistent
      reads known, youngAlloc, persistentAlloc
    {
      && Apart() && Elems(young) <= known && Elems(persistent) <= known
      && GenerationOk(young, youngList, numYoung, youngAlloc, Young)
      && GenerationOk(persistent, persistentList, numPersistent, persistentAlloc, Persistent)
      && RefsKnown(known, Heap())
      && Idle(Elems(persistent)) && (forall o :: o in young ==> !o.spinlock)
    }

    ghost predicate Valid()
      reads `young, `persistent, `known, `roots, `typeDefs, `youngList, `persistentList, `numYoung, `numPersistent
      reads known, youngAlloc, persistentAlloc
    {
      ListsValid() && TypesSound(typeDefs, young, persistent)
    }

    lemma YoungReady() returns (heap: set<Object>, reach: set<Object>, survivors: seq<Object>)
      requires Valid()
      ensures heap == Heap() && heap <= known && youngAlloc != persistentAlloc && RefsKnown(known, heap)
      ensures reach == Reach(known, roots, young) && DeadList(known, roots, young) == Without(young, reach)
      ensures survivors == Without(young, Elems(young) - reach) + persistent
      ensures Collection(known, heap, roots, young, youngList, numYoung, typeDefs, youngAlloc)
      ensures TypesSound(typeDefs - KeysOf(TypeDefsOf(Without(young, reach))), [], survivors)
    {
      heap, reach := Heap(), Reach(known, roots, young);
      survivors := Without(young, Elems(young) - reach) + persistent;
      ReachFacts(known, heap, roots, young);
      TypesAfter(typeDefs, young, persistent, heap, reach);
      TypesFit(typeDefs, young, persistent, heap);
      ApartLists(young, persistent);
      assert heap - Elems(young) == Elems(persistent);
      hide TypesSound, TypesOk, Reach, Without, KeysOf, TypeDefsOf, GenLinked, Distinct, RefsKnown, Idle, RootList;
    }

    /** The young list has been collected but not yet merged into the persistent one. */
    ghost predicate YoungSwept(dead: set<Object>, end: Object?)
      reads this, known, youngAlloc, persistentAlloc
    {
      && Apart() && Elems(young) <= known && Elems(persistent) <= known
      && Swept(young, dead, youngList, end, youngAlloc, Heap()) && numYoung == |Without(young, dead)|
      && GenerationOk(persistent, persistentList, numPersistent, persistentAlloc, Persistent)
      && Idle(Heap() - dead) && (forall o :: o in Heap() - dead ==> o.generation == Persistent)
      && RefsKnown(known, Heap() - dead)
      && TypesSound(typeDefs, [], Without(young, dead) + persistent)
    }
  
    /** Collects the young list. */
    method CollectYoung() returns (outcome: Outcome, end: Object?)
      requires Valid()
      modifies this`youngList, this`numYoung, this`typeDefs
      modifies known`gcStatus, known`home, known`spinlock, known`nextSameGcset, known`prevSameGcset
      modifies known`nextSameGen, known`prevSameGen, known`freed, known`generation, youngAlloc`szAllocated
      ensures outcome == Completed <==>
                old(Collectable(known, roots, young) && Searchable(known, roots, young, typeDefs))
      ensures outcome == Disordered ==> old(!Searchable(known, roots, young, typeDefs))
      ensures outcome == UseAfterFree ==> old(!Collectable(known, roots, young))
      ensures outcome == Completed ==> YoungSwept(Elems(young) - old(Reach(known, roots, young)), end)
      ensures outcome == Completed ==>
                typeDefs == old(typeDefs) - KeysOf(TypeDefsOf(old(DeadList(known, roots, young))))
    {
      hide *;
      ghost var heap, reach, survivors := YoungReady();
      outcome, youngList, end, numYoung, typeDefs :=
        GcSerial(roots, youngList, numYoung, Persistent, typeDefs, youngAlloc, known, heap, young);
      if outcome == Completed {
        SweptEnd(young, Elems(young) - reach, youngList, end, youngAlloc, heap);
        YoungPassDone(PassArgs(this, heap, reach, survivors));
      }
    }

    /** Appends the persistent list to what is left of the young one, and moves the young bytes. */
    method MergeYoung(end: Object?, ghost dead: set<Object>)
      requires YoungSwept(dead, end)
      modifies this`youngList, this`numYoung, this`persistentList, this`numPersistent, this`young, this`persistent
      modifies known`nextSameGen, known`prevSameGen, youngAlloc`szAllocated, persistentAlloc`szAllocated
      ensures Valid() && young == [] && persistent == Without(old(young), dead) + old(persistent)
    {
      hide *;
      ghost var s, t := MergeFacts(dead, end);
      SpliceYoung(end);
      young, persistent := [], s + t;
      MergeDone(MergeArgs(this, s, t, dead));
    }

    /** The pointers, the counters and the bytes of it. */
    method SpliceYoung(end: Object?)
      requires youngAlloc != persistentAlloc && (end != null ==> end in known)
      requires (persistentList != null ==> persistentList in known)
      modifies this`youngList, this`numYoung, this`persistentList, this`numPersistent
      modifies known`nextSameGen, known`prevSameGen, youngAlloc`szAllocated, persistentAlloc`szAllocated
      ensures youngList == null && numYoung == 0 && numPersistent == old(numPersistent) + old(numYoung)
      ensures persistentList == if old(youngList) != null then old(youngList) else old(persistentList)
      ensures youngAlloc.szAllocated == 0
      ensures persistentAlloc.szAllocated == old(persistentAlloc.szAllocated) + old(youngAlloc.szAllocated)
      ensures forall o {:trigger o.nextSameGen} :: o in known ==>
                o.nextSameGen == if o == end then old(persistentList) else old(o.nextSameGen)
      ensures forall o {:trigger o.prevSameGen} :: o in known ==>
                o.prevSameGen == if o == old(persistentList) then end else old(o.prevSameGen)
    {
      hide *;
      MoveYoungBytes();
      LinkLists(end, persistentList, known);
      if youngList != null {
        persistentList := youngList;
      }
      numPersistent := numPersistent + numYoung;
      youngList := null;
      numYoung := 0;
    }

    method MoveYoungBytes()
      requires youngAlloc != persistentAlloc
      modifies youngAlloc`szAllocated, persistentAlloc`szAllocated
      ensures youngAlloc.szAllocated == 0
      ensures persistentAlloc.szAllocated == old(persistentAlloc.szAllocated) + old(youngAlloc.szAllocated)
    {
      var youngSize := youngAlloc.szAllocated;
      if youngSize != 0 {
        persistentAlloc.szAllocated := persistentAlloc.szAllocated + youngSize;
        youngAlloc.szAllocated := 0;
      }
    }

    static method LinkLists(end: Object?, list: Object?, ghost heap: set<Object>)
      requires (end != null ==> end in heap) && (list != null ==> list in heap)
      modifies heap`nextSameGen, heap`prevSameGen
      ensures forall o {:trigger o.nextSameGen} :: o in heap ==>
                o.nextSameGen == if o == end then list else old(o.nextSameGen)
      ensures forall o {:trigger o.prevSameGen} :: o in heap ==>
                o.prevSameGen == if o == list then end else old(o.prevSameGen)
    {
      if end != null {
        end.nextSameGen := list;
      }
      if list != null {
        list.prevSameGen := end;
      }
    }

    lemma MergeFacts(dead: set<Object>, end: Object?) returns (s: seq<Object>, t: seq<Object>)
      requires YoungSwept(dead, end)
      ensures s == Without(young, dead) && t == persistent && youngAlloc != persistentAlloc
      ensures Elems(s) <= known && Elems(t) <= known
      ensures (end != null ==> end in known) && (persistentList != null ==> persistentList in known)
      ensures end == LastOf(s) && youngList == At(s, 0) && persistentList == At(t, 0)
    {
      s, t := Without(young, dead), persistent;
      WithoutElems(young, dead);
      assert Elems(s) <= Elems(young);
    }

    lemma PersistentReady() returns (heap: set<Object>, reach: set<Object>, survivors: seq<Object>)
      requires Valid() && young == []
      ensures heap == Heap() && heap == Elems(persistent) && heap <= known && youngAlloc != persistentAlloc
      ensures RefsKnown(known, heap)
      ensures GenerationOk([], youngList, numYoung, youngAlloc, Young) && Objects(RootList(roots)) <= known
      ensures Elems(survivors) == heap - (heap - reach) && Elems(survivors) <= known
      ensures forall o :: o in heap ==> o.generation == Persistent
      ensures reach == Reach(known, roots, persistent)
      ensures DeadList(known, roots, persistent) == Without(persistent, reach)
      ensures survivors == Without(persistent, Elems(persistent) - reach)
      ensures Collection(known, heap, roots, persistent, persistentList, numPersistent, typeDefs, persistentAlloc)
      ensures TypesSound(typeDefs - KeysOf(TypeDefsOf(Without(persistent, reach))), [], survivors)
    {
      heap, reach := Heap(), Reach(known, roots, persistent);
      survivors := Without(persistent, Elems(persistent) - reach);
      OnlyPersistent();
      ReachFacts(known, heap, roots, persistent);
      WithoutElems(persistent, heap - reach);
      assert persistent + [] == persistent && survivors + [] == survivors;
      TypesAfter(typeDefs, persistent, [], heap, reach);
      TypesFit(typeDefs, persistent, [], heap);
      hide TypesSound, TypesOk, Reach, Without, KeysOf, TypeDefsOf, GenLinked, Distinct, RefsKnown, Idle, RootList;
    }

    /** With no young objects everything is persistent. */
    lemma OnlyPersistent()
      requires Valid() && young == []
      ensures Heap() == Elems(persistent) && TypesSound(typeDefs, persistent, []) && Elems(persistent) <= known
      ensures forall o :: o in Elems(persistent) ==> o.generation == Persistent
    {
      hide RefsKnown, Idle, GenLinked, Registered;
      forall key | key in typeDefs
        ensures Registered(typeDefs[key], key, persistent, [])
      {
        assert Registered(typeDefs[key], key, [], persistent);
        MovedOver(typeDefs[key], key, persistent);
      }
    }

    lemma MovedOver(t: Object, key: TypeDefs.Reading, objs: seq<Object>)
      requires Registered(t, key, [], objs)
      ensures Registered(t, key, objs, [])
    {
    }

    lemma PersistentSwept(heap: set<Object>, reach: set<Object>, s: seq<Object>, end: Object?)
      requires Swept(persistent, Elems(persistent) - reach, persistentList, end, persistentAlloc, heap)
      requires heap == Elems(persistent)
      requires s == Without(persistent, Elems(persistent) - reach) && numPersistent == |s|
      requires forall o :: o in heap ==> o.generation == Persistent
      ensures GenerationOk(s, persistentList, numPersistent, persistentAlloc, Persistent)
      ensures forall o :: o in heap ==> (o.freed <==> o in heap - reach)
    {
      WithoutElems(persistent, Elems(persistent) - reach);
      WithoutDistinct(persistent, Elems(persistent) - reach);
      assert forall o :: o in s ==> o in Elems(s);
    }

    lemma PersistentDone(reach: set<Object>)
      requires young == [] && Elems(persistent) <= known && Objects(RootList(roots)) <= known
      requires youngAlloc != persistentAlloc
      requires GenerationOk([], youngList, numYoung, youngAlloc, Young)
      requires GenerationOk(persistent, persistentList, numPersistent, persistentAlloc, Persistent)
      requires RefsKnown(known, Elems(persistent)) && Idle(Elems(persistent)) && TypesSound(typeDefs, [], persistent)
      ensures Valid()
    {
      assert [] + persistent == persistent;
    }

    /** Collects the persistent list. */
    method CollectPersistent() returns (outcome: Outcome)
      requires Valid() && young == []
      modifies this`persistentList, this`numPersistent, this`persistent, this`typeDefs
      modifies known`gcStatus, known`home, known`spinlock, known`nextSameGcset, known`prevSameGcset
      modifies known`nextSameGen, known`prevSameGen, known`freed, known`generation, persistentAlloc`szAllocated
      ensures outcome == Completed <==>
                old(Collectable(known, roots, persistent) && Searchable(known, roots, persistent, typeDefs))
      ensures outcome == Disordered ==> old(!Searchable(known, roots, persistent, typeDefs))
      ensures outcome == UseAfterFree ==> old(!Collectable(known, roots, persistent))
      ensures outcome == Completed ==>
        Valid() && persistent == Without(old(persistent), Elems(old(persistent)) - old(Reach(known, roots, persistent)))
      ensures outcome == Completed ==>
                typeDefs == old(typeDefs) - KeysOf(TypeDefsOf(old(DeadList(known, roots, persistent))))
    {
      hide *;
      ghost var heap, reach, survivors := PersistentReady();
      var end: Object?;
      outcome, persistentList, end, numPersistent, typeDefs :=
        GcSerial(roots, persistentList, numPersistent, Persistent, typeDefs, persistentAlloc, known, heap, persistent);
      if outcome == Completed {
        PersistentSwept(heap, reach, survivors, end);
        RefsShrink(RefArgs(known, heap, heap - reach));
        persistent := survivors;
        PersistentDone(reach);
      }
    }

    /** The young objects that the young pass deletes. */
    ghost function YoungDead(): set<Object>
      reads this, known, young
    {
      Elems(young) - Reach(known, roots, young)
    }

    /** The persistent list after the young pass: what survives of the young list comes first. */
    ghost function Merged(): seq<Object>
      reads this, known, young
    {
      Without(young, YoungDead()) + persistent
    }

    /** Whether the second pass is due. */
    ghost predicate FullGc()
      reads this, known, young
    {
      SumSizes(Merged()) >= computedPersistentGcLimit
    }

    /** The type table after the young pass, and after the second one. */
    ghost function YoungTable(): TypeTable
      reads this, known, young
    {
      typeDefs - KeysOf(TypeDefsOf(DeadList(known, roots, young)))
    }

    ghost function FullTable(): TypeTable
      requires Valid()
      reads this, known, young, youngAlloc, persistentAlloc
    {
      MergedKnown();
      YoungTable() - KeysOf(TypeDefsOf(DeadList(known, roots, Merged())))
    }

    /** All that is left, in list order, after a collection that completes. */
    ghost function AfterGc(): seq<Object>
      requires Valid()
      reads this, known, young, youngAlloc, persistentAlloc
    {
      MergedKnown();
      if FullGc() then Without(Merged(), Elems(Merged()) - Reach(known, roots, Merged())) else Merged()
    }

    lemma MergedKnown()
      requires Valid()
      ensures forall o :: o in Merged() ==> o in known
    {
      MergedElems();
      assert forall o :: o in Merged() ==> o in Elems(Merged());
    }

    lemma MergedElems()
      requires Valid()
      ensures Elems(Merged()) == Heap() - YoungDead() && YoungDead() <= Heap()
    {
      ApartLists(young, persistent);
      MergedHeap(young, persistent, YoungDead(), Without(young, YoungDead()));
    }

    lemma PlanFacts() returns (merged: seq<Object>, gone: set<Object>)
      requires Valid()
      ensures merged == Merged() && gone == YoungDead() && Elems(merged) <= known && gone <= Heap()
      ensures gone == Elems(young) - Reach(known, roots, young) && merged == Without(young, gone) + persistent
      ensures FullGc() <==> SumSizes(merged) >= computedPersistentGcLimit
      ensures Elems(merged) == Heap() - gone
      ensures RefsKnown(known, Heap())
      ensures YoungTable() == typeDefs - KeysOf(TypeDefsOf(DeadList(known, roots, young)))
      ensures AfterGc() == if FullGc() then Without(merged, Elems(merged) - Reach(known, roots, merged)) else merged
      ensures FullTable() == YoungTable() - KeysOf(TypeDefsOf(DeadList(known, roots, merged)))
    {
      merged, gone := Merged(), YoungDead();
      MergedElems();
    }

    lemma ValidFacts()
      requires Valid()
      ensures RefsKnown(known, Heap()) && (young == [] ==> Heap() == Elems(persistent))
      ensures persistentAlloc.szAllocated == SumSizes(persistent) && youngAlloc.szAllocated == SumSizes(young)
      ensures numPersistent == |persistent| && numYoung == |young| && persistentList == At(persistent, 0)
      ensures youngList == At(young, 0)
    {
    }

    /** The young pass: the young list is collected and its survivors become persistent. */
    method YoungPass() returns (outcome: Outcome, ghost merged: seq<Object>, ghost gone: set<Object>)
      requires Valid()
      modifies this`youngList, this`numYoung, this`typeDefs, this`persistentList, this`numPersistent, this`young,
          this`persistent
      modifies known`gcStatus, known`home, known`spinlock, known`nextSameGcset, known`prevSameGcset
      modifies known`nextSameGen, known`prevSameGen, known`freed, known`generation
      modifies youngAlloc`szAllocated, persistentAlloc`szAllocated
      ensures outcome == Completed <==>
                old(Collectable(known, roots, young) && Searchable(known, roots, young, typeDefs))
      ensures outcome == Disordered ==> old(!Searchable(known, roots, young, typeDefs))
      ensures outcome == UseAfterFree ==> old(!Collectable(known, roots, young))
      ensures outcome == Completed ==> Valid() && young == [] && persistent == merged && typeDefs == old(YoungTable())
      ensures merged == old(Merged()) && gone == old(YoungDead()) && Elems(merged) <= known && gone <= old(Heap())
      ensures outcome == Completed ==>
        && (Collectable(known, roots, merged) <==> old(StillCollectable(known, roots, Merged(), YoungDead())))
        && (Searchable(known, roots, merged, typeDefs) <==> old(Searchable(known, roots, Merged(), YoungTable())))
      ensures outcome == Completed ==> (persistentAlloc.szAllocated >= computedPersistentGcLimit <==> old(FullGc()))
    {
      hide *;
      merged, gone := PlanFacts();
      var end: Object?;
      outcome, end := CollectYoung();
      if outcome == Completed {
        MergeYoung(end, gone);
        ValidFacts();
        AfterYoungPass(SecondArgs(this, merged, gone, typeDefs));
      }
    }

    /** The second pass, and the limit that makes it due. */
    method FullPass() returns (outcome: Outcome)
      requires Valid() && young == []
      modifies this`persistentList, this`numPersistent, this`persistent, this`typeDefs
      modifies this`persistentMemUsedAfterLastGc, this`computedPersistentGcLimit
      modifies known`gcStatus, known`home, known`spinlock, known`nextSameGcset, known`prevSameGcset
      modifies known`nextSameGen, known`prevSameGen, known`freed, known`generation, persistentAlloc`szAllocated
      ensures outcome == Completed <==>
                old(Collectable(known, roots, persistent) && Searchable(known, roots, persistent, typeDefs))
      ensures outcome == Disordered ==> old(!Searchable(known, roots, persistent, typeDefs))
      ensures outcome == UseAfterFree ==> old(!Collectable(known, roots, persistent))
      ensures outcome == Completed ==>
        && Valid()
        && persistent == Without(old(persistent), Elems(old(persistent)) - old(Reach(known, roots, persistent)))
        && typeDefs == old(typeDefs) - KeysOf(TypeDefsOf(old(DeadList(known, roots, persistent))))
        && computedPersistentGcLimit == persistentAlloc.szAllocated + persistentAlloc.szAllocated / 2
    {
      hide *;
      outcome := CollectPersistent();
      if outcome == Completed {
        persistentMemUsedAfterLastGc := persistentAlloc.szAllocated;
        computedPersistentGcLimit := persistentMemUsedAfterLastGc + persistentMemUsedAfterLastGc / 2;
      }
    }

    /** A collection: the young pass, and the full pass if enough bytes are persistent by then. */
    method Gc() returns (outcome: Outcome)
      requires Valid()
      modifies this, known`gcStatus, known`home, known`spinlock, known`nextSameGcset, known`prevSameGcset
      modifies known`nextSameGen, known`prevSameGen, known`freed, known`generation
      modifies youngAlloc`szAllocated, persistentAlloc`szAllocated
      ensures known == old(known) && roots == old(roots)
      ensures outcome == Completed <==>
        old(&& Collectable(known, roots, young) && Searchable(known, roots, young, typeDefs)
            && (FullGc() ==> StillCollectable(known, roots, Merged(), YoungDead())
                             && Searchable(known, roots, Merged(), YoungTable())))
      ensures outcome == Disordered ==>
        old(!Searchable(known, roots, young, typeDefs) || !Searchable(known, roots, Merged(), YoungTable()))
      ensures old(Collectable(known, roots, young) && !Searchable(known, roots, young, typeDefs)) ==>
                outcome == Disordered
      ensures outcome == Completed ==> Valid() && young == []
      ensures outcome == Completed ==> persistent == old(AfterGc())
      ensures outcome == Completed ==> typeDefs == old(if FullGc() then FullTable() else YoungTable())
      ensures outcome == Completed ==> computedGcLimit == persistentAlloc.szAllocated + persistentAlloc.szAllocated / 2
      ensures outcome == Completed ==>
        computedPersistentGcLimit == if old(FullGc()) then computedGcLimit else old(computedPersistentGcLimit)
    {
      hide *;
      ghost var merged, gone;
      merged, gone := PlanFacts();
      outcome, merged, gone := YoungPass();
      if outcome != Completed {
        return;
      }
      if persistentAlloc.szAllocated >= computedPersistentGcLimit {
        outcome := FullPass();
        if outcome != Completed {
          return;
        }
      }
      NoYoungBytes();
      memUsedAfterLastGc := youngAlloc.szAllocated + persistentAlloc.szAllocated;
      computedGcLimit := memUsedAfterLastGc + memUsedAfterLastGc / 2;
    }

    lemma NoYoungBytes()
      requires Valid() && young == []
      ensures youngAlloc.szAllocated == 0
    {
    }

    /** Puts a newly made object at the front of the young list. */
    method AddObject(obj: Object)
      requires GenLinked(young) && Distinct(young) && youngList == At(young, 0) && numYoung == |young|
      requires Elems(young) <= known
      requires obj !in known && obj.prevSameGen == null
      modifies `youngList, `numYoung, `young, `known, known`prevSameGen, obj`gcStatus, obj`nextSameGen
      ensures young == [obj] + old(young) && known == old(known) + {obj} && obj.gcStatus == Unwalked
      ensures GenLinked(young) && Distinct(young) && youngList == At(young, 0) && numYoung == |young|
      ensures forall o :: o in old(known) && o !in old(young) ==> o.prevSameGen == old(o.prevSameGen)
    {
      hide Distinct;
      assert forall o :: o in young ==> o in Elems(young);
      assert young != [] ==> young[0].prevSameGen == null;
      ghost var was := young;
      if youngList != null {
        youngList.prevSameGen := obj;
      }
      obj.gcStatus := Unwalked;
      obj.nextSameGen := youngList;
      youngList := obj;
      numYoung := numYoung + 1;
      young, known := [obj] + young, known + {obj};
      FrontDistinct(obj, was);
      forall i | 0 < i < |young|
        ensures young[i].nextSameGen == At(young, i + 1) && young[i].prevSameGen == At(young, i - 1)
      {
        assert young[i] == was[i - 1] && young[i] != obj;
        assert old(was[i - 1].nextSameGen) == At(was, i) && old(was[i - 1].prevSameGen) == At(was, i - 2);
      }
    }

    static lemma FrontDistinct(obj: Object, was: seq<Object>)
      requires Distinct(was) && obj !in was
      ensures Distinct([obj] + was)
    {
    }

    /** Allocates an object and makes it young. What it refers to is live; a type definition
        is not made of type definitions, and refers to all that comparing it dereferences. */
    method NewObject(payload: Payload, address: nat, size: nat, refs: seq<Object?>) returns (obj: Object)
      requires Valid()
      requires forall r :: r in refs && r != null ==> r in Heap() && (payload.Definition? ==> r.kind != TypeDef)
      requires payload.Definition? ==> forall r :: r in ReadBy(payload.def) ==> r in refs
      modifies `youngList, `numYoung, `young, `known, known`prevSameGen, youngAlloc`szAllocated
      ensures Valid() && fresh(obj) && young == [obj] + old(young) && known == old(known) + {obj}
      ensures obj.payload == payload && obj.address == address && obj.size == size && obj.refs == refs
      ensures obj.hostRefCount == 0
    {
      hide *;
      ghost var was, heap, knew := AddReady();
      youngAlloc.Alloc(size);
      obj := new Object(payload, address, size);
      PayloadFacts(obj, payload);
      obj.refs := refs;
      AddObject(obj);
      NewDone(obj, was, heap, knew);
    }

    lemma NewDone(obj: Object, was: seq<Object>, heap: set<Object>, knew: set<Object>)
      requires obj !in knew && known == knew + {obj} && young == [obj] + was && Distinct(was + persistent)
      requires heap == Elems(was) + Elems(persistent) && heap <= knew && youngAlloc != persistentAlloc
      requires GenLinked(young) && Distinct(young) && youngList == At(young, 0) && numYoung == |young|
      requires youngAlloc.szAllocated == SumSizes(was) + obj.size
      requires GenerationOk(persistent, persistentList, numPersistent, persistentAlloc, Persistent)
      requires RefsKnown(knew, heap) && Idle(Elems(persistent)) && TypesSound(typeDefs, was, persistent)
      requires Objects(RootList(roots)) <= knew && (forall o :: o in was ==> o.generation == Young && !o.spinlock)
      requires obj.generation == Young && !obj.spinlock && !obj.freed
      requires forall r :: r in obj.refs && r != null ==> r in heap && (obj.kind == TypeDef ==> r.kind != TypeDef)
      requires forall r :: r in ReadWith(obj) ==> r in obj.refs
      ensures Valid()
    {
      var joined := JoinFront(obj, was, persistent);
      TypesGrow(typeDefs, was, persistent, obj);
      RefsGrow(knew, heap, obj);
      assert young + persistent == joined;
      hide TypesSound, GenLinked, RefsKnown;
    }

    lemma AddReady() returns (was: seq<Object>, heap: set<Object>, knew: set<Object>)
      requires Valid()
      ensures was == young && heap == Heap() && knew == known && heap == Elems(young) + Elems(persistent)
      ensures heap <= known
      ensures GenLinked(young) && Distinct(young) && youngList == At(young, 0) && numYoung == |young|
      ensures Elems(young) <= known
      ensures GenerationOk(persistent, persistentList, numPersistent, persistentAlloc, Persistent)
      ensures Distinct(young + persistent) && youngAlloc != persistentAlloc && youngAlloc.szAllocated == SumSizes(young)
      ensures RefsKnown(known, heap) && Idle(Elems(persistent)) && TypesSound(typeDefs, young, persistent)
      ensures Objects(RootList(roots)) <= known && Elems(persistent) <= known
      ensures forall o :: o in young ==> o in known && o.generation == Young && !o.spinlock
      ensures forall o :: o in persistent ==> o in known && o !in young
    {
      was, heap, knew := young, Heap(), known;
      ApartLists(young, persistent);
      assert forall o :: o in young ==> o in Elems(young);
      assert forall o :: o in persistent ==> o in Elems(persistent);
    }

    /** Stores new references into a live object that is not a type definition. */
    method SetRefs(obj: Object, refs: seq<Object?>)
      requires Valid() && obj in Heap() && obj.kind != TypeDef && forall r :: r in refs && r != null ==> r in Heap()
      modifies obj`refs
      ensures Valid() && obj.refs == refs
    {
      obj.refs := refs;
    }

    /** The host takes a reference to a live object. */
    method Hold(obj: Object)
      requires Valid() && obj in Heap()
      modifies obj`hostRefCount
      ensures Valid() && obj.hostRefCount == old(obj.hostRefCount) + 1
    {
      obj.hostRefCount := obj.hostRefCount + 1;
    }

    /** The host gives a reference back. */
    method Release(obj: Object)
      requires Valid() && obj in Heap() && obj.hostRefCount > 0
      modifies obj`hostRefCount
      ensures Valid() && obj.hostRefCount == old(obj.hostRefCount) - 1
    {
      obj.hostRefCount := obj.hostRefCount - 1;
    }

    /** The contexts, the cache and the root object change between collections. */
    method SetRoots(r: Roots)
      requires Valid() && Objects(RootList(r)) <= Heap()
      modifies `roots
      ensures Valid() && roots == r
    {
      roots := r;
    }

    /** Interns a type definition, unless the search finds one that compares the same, where the source ends
        the process, or reads past the end of a tuple. */
    method RegisterTypeDef(t: Object) returns (r: Registration)
      requires Valid() && t in Heap() && t.kind == TypeDef
      modifies `typeDefs
      ensures Valid() && typeDefs == if r == Interned then old(typeDefs)[t.typeKey := t] else old(typeDefs)
      ensures r == Interned <==> Placeable(old(typeDefs), t.typeKey) && t.typeKey !in old(typeDefs)
      ensures Placeable(old(typeDefs), t.typeKey) ==>
        (r == AlreadyThere <==>
           exists k :: k in old(typeDefs) && TypeDefs.Compare(DefOf(t.payload.def),
               DefOf(old(typeDefs)[k].payload.def)) == TypeDefs.Same)
      ensures r == AlreadyThere && t.typeKey !in old(typeDefs) ==>
        exists k :: k in old(typeDefs) && (TypeDefs.ProperPrefix(k, t.typeKey) || TypeDefs.ProperPrefix(t.typeKey, k))
    {
      hide *;
      ghost var heap := Readable(t);
      Registering(t, heap);
      var tree := Arrange(typeDefs.Keys);
      var entryFirst: bool := *;
      var answer := Search(typeDefs, tree, entryFirst, t, heap);
      Answered(typeDefs, t, heap, answer);
      if answer.Holds? {
        return AlreadyThere;
      }
      if answer.PastEnd? {
        return ReadPastEnd;
      }
      typeDefs := typeDefs[t.typeKey := t];
      TableReplaced();
      return Interned;
    }

    /** Everything that a search in the table reads is live. */
    lemma Readable(t: Object) returns (heap: set<Object>)
      requires Valid() && t in Heap() && t.kind == TypeDef
      ensures Comparable(typeDefs, t, heap)
    {
      heap := Heap();
      forall o | o in heap && o.kind == TypeDef
        ensures Legible(o, heap)
      {
        assert o in young || o in persistent;
      }
      forall key | key in typeDefs
        ensures typeDefs[key] in heap && typeDefs[key].kind == TypeDef && typeDefs[key].typeKey == key
      {
        assert Registered(typeDefs[key], key, young, persistent);
      }
    }

    lemma TableReplaced()
      requires ListsValid() && TypesSound(typeDefs, young, persistent)
      ensures Valid()
    {
      hide Apart, GenerationOk, RefsKnown, Idle, TypesSound;
    }

    lemma Registering(t: Object, heap: set<Object>)
      requires Valid() && t in Heap() && t.kind == TypeDef && Comparable(typeDefs, t, heap)
      ensures ListsValid() && PairwiseApart(typeDefs.Keys)
      ensures Placeable(typeDefs, t.typeKey) ==> TypesSound(typeDefs[t.typeKey := t], young, persistent)
    {
      hide Apart, GenerationOk, RefsKnown, Idle, Registered, PairwiseApart, ApartFrom;
      var table := typeDefs[t.typeKey := t];
      assert table.Keys == typeDefs.Keys + {t.typeKey};
      if Placeable(typeDefs, t.typeKey) {
        KeyApart(typeDefs.Keys, t.typeKey);
      }
      NewEntry(t);
      forall key | key in table
        ensures Registered(table[key], key, young, persistent)
      {
        assert key in typeDefs ==> Registered(typeDefs[key], key, young, persistent);
      }
    }

    lemma NewEntry(t: Object)
      requires Valid() && t in Heap() && t.kind == TypeDef
      ensures Registered(t, t.typeKey, young, persistent)
    {
      hide Apart, TypesSound, RefsKnown, Idle;
    }
  }

  lemma SweptEnd(objs: seq<Object>, dead: set<Object>, list: Object?, end: Object?, alloc: PoolAlloc, heap: set<Object>)
    requires Swept(objs, dead, list, end, alloc, heap)
    ensures end == LastOf(Without(objs, dead))
  {
  }

  datatype PassArgs = PassArgs(rt: Runtime, heap: set<Object>, reach: set<Object>, survivors: seq<Object>)

  twostate lemma YoungPassDone(p: PassArgs)
    requires old(p.rt.Valid()) && p.heap == old(p.rt.Heap())
    requires unchanged(p.rt`young, p.rt`persistent, p.rt`known, p.rt`roots, p.rt`persistentList, p.rt`numPersistent)
    requires unchanged(p.rt.persistentAlloc) && unchanged(p.rt.known`refs)
    requires forall o :: o in p.rt.known && o !in p.heap ==> o.freed == old(o.freed)
    requires Swept(p.rt.young, Elems(p.rt.young) - p.reach, p.rt.youngList,
              LastOf(Without(p.rt.young, Elems(p.rt.young) - p.reach)), p.rt.youngAlloc, p.heap)
    requires p.rt.numYoung == |Without(p.rt.young, Elems(p.rt.young) - p.reach)|
    requires p.survivors == Without(p.rt.young, Elems(p.rt.young) - p.reach) + p.rt.persistent
    requires TypesSound(p.rt.typeDefs, [], p.survivors)
    requires Idle(p.heap - (Elems(p.rt.young) - p.reach))
    requires forall o :: o in p.heap ==> o.generation == if o in p.reach then Persistent else old(o.generation)
    requires forall o :: o in p.heap && o !in p.rt.young ==>
              o.nextSameGen == old(o.nextSameGen) && o.prevSameGen == old(o.prevSameGen)
    ensures p.rt.YoungSwept(Elems(p.rt.young) - p.reach, LastOf(Without(p.rt.young, Elems(p.rt.young) - p.reach)))
  {
    var rt, dead := p.rt, Elems(p.rt.young) - p.reach;
    ApartLists(rt.young, rt.persistent);
    assert GenerationOk(rt.persistent, rt.persistentList, rt.numPersistent, rt.persistentAlloc, Persistent);
  }

  datatype RefArgs = RefArgs(known: set<Object>, heap: set<Object>, dead: set<Object>)

  /** Deallocation turns live objects into known freed ones. */
  twostate lemma RefsShrink(a: RefArgs)
    requires old(RefsKnown(a.known, a.heap)) && unchanged(a.known`refs)
    requires forall o :: o in a.heap ==> (o.freed <==> o in a.dead)
    requires forall o :: o in a.known && o !in a.heap ==> o.freed == old(o.freed)
    ensures RefsKnown(a.known, a.heap - a.dead)
  {
  }

  lemma ApartLists(s: seq<Object>, t: seq<Object>)
    requires Distinct(s + t)
    ensures Distinct(s) && Distinct(t) && forall o :: o in t ==> o !in s
  {
    forall i, j | 0 <= i < |s| && 0 <= j < |t|
      ensures s[i] != t[j]
    {
      assert (s + t)[i] == s[i] && (s + t)[|s| + j] == t[j];
    }
    assert forall i :: 0 <= i < |s| ==> (s + t)[i] == s[i];
    assert forall i :: 0 <= i < |t| ==> (s + t)[|s| + i] == t[i];
  }

  datatype MergeArgs = MergeArgs(rt: Runtime, s: seq<Object>, t: seq<Object>, dead: set<Object>)

  twostate lemma MergeDone(m: MergeArgs)
    requires m.s == Without(old(m.rt.young), m.dead) && m.t == old(m.rt.persistent) && unchanged(m.rt`known)
    requires old(m.rt.YoungSwept(m.dead, LastOf(m.s))) && unchanged(m.rt`roots, m.rt`typeDefs)
    requires m.rt.young == [] && m.rt.persistent == m.s + m.t
    requires m.rt.youngList == null && m.rt.numYoung == 0
    requires m.rt.numPersistent == old(m.rt.numPersistent) + old(m.rt.numYoung)
    requires m.rt.persistentList == if old(m.rt.youngList) != null then old(m.rt.youngList)
              else old(m.rt.persistentList)
    requires m.rt.youngAlloc.szAllocated == 0
    requires m.rt.persistentAlloc.szAllocated == old(m.rt.persistentAlloc.szAllocated) +
              old(m.rt.youngAlloc.szAllocated)
    requires forall o {:trigger o.nextSameGen} :: o in m.rt.known ==>
               o.nextSameGen == if o == LastOf(m.s) then At(m.t, 0) else old(o.nextSameGen)
    requires forall o {:trigger o.prevSameGen} :: o in m.rt.known ==>
               o.prevSameGen == if o == At(m.t, 0) then LastOf(m.s) else old(o.prevSameGen)
    requires unchanged(m.rt.known`refs, m.rt.known`freed, m.rt.known`generation, m.rt.known`home, m.rt.known`gcStatus)
    requires unchanged(m.rt.known`spinlock, m.rt.known`nextSameGcset, m.rt.known`prevSameGcset)
    ensures m.rt.Valid()
  {
    var rt := m.rt;
    var (young, persistent) := (old(rt.young), m.t);
    MergedHeap(young, persistent, m.dead, m.s);
    MergedList(m);
    assert rt.Heap() == old(rt.Heap()) - m.dead;
  }

  /** The two lists are one, with the counts and the bytes of both. */
  twostate lemma MergedList(m: MergeArgs)
    requires m.s == Without(old(m.rt.young), m.dead) && m.t == old(m.rt.persistent) && unchanged(m.rt`known)
    requires old(m.rt.YoungSwept(m.dead, LastOf(m.s)))
    requires Distinct(m.s + m.t) && Elems(m.s) + Elems(m.t) == old(m.rt.Heap()) - m.dead
    requires m.rt.numPersistent == old(m.rt.numPersistent) + old(m.rt.numYoung)
    requires m.rt.persistentList == if old(m.rt.youngList) != null then old(m.rt.youngList)
              else old(m.rt.persistentList)
    requires m.rt.persistentAlloc.szAllocated == old(m.rt.persistentAlloc.szAllocated) +
              old(m.rt.youngAlloc.szAllocated)
    requires forall o {:trigger o.nextSameGen} :: o in m.rt.known ==>
               o.nextSameGen == if o == LastOf(m.s) then At(m.t, 0) else old(o.nextSameGen)
    requires forall o {:trigger o.prevSameGen} :: o in m.rt.known ==>
               o.prevSameGen == if o == At(m.t, 0) then LastOf(m.s) else old(o.prevSameGen)
    requires unchanged(m.rt.known`generation)
    ensures GenerationOk(m.s + m.t, m.rt.persistentList, m.rt.numPersistent, m.rt.persistentAlloc, Persistent)
  {
    SumConcat(m.s, m.t);
    Spliced(SpliceArgs(m.s, m.t, m.rt.known));
    forall o | o in m.s + m.t
      ensures o.generation == Persistent
    {
      assert o in Elems(m.s) || o in Elems(m.t);
    }
  }

  lemma MergedHeap(young: seq<Object>, persistent: seq<Object>, dead: set<Object>, s: seq<Object>)
    requires Distinct(young + persistent) && s == Without(young, dead) && dead <= Elems(young)
    ensures Distinct(s + persistent)
    ensures Elems(s) + Elems(persistent) == Elems(young) + Elems(persistent) - dead
    ensures Elems(s + persistent) == Elems(s) + Elems(persistent)
  {
    ApartLists(young, persistent);
    WithoutElems(young, dead);
    WithoutDistinct(young, dead);
    forall o | o in Elems(persistent)
      ensures o !in dead && o !in s
    {
      assert o in persistent && o !in Elems(young);
    }
    JoinApart(s, persistent);
  }

  lemma JoinApart(s: seq<Object>, t: seq<Object>)
    requires Distinct(s) && Distinct(t) && forall o :: o in Elems(t) ==> o !in s
    ensures Distinct(s + t) && Elems(s + t) == Elems(s) + Elems(t)
  {
    forall i, j | 0 <= i < j < |s + t|
      ensures (s + t)[i] != (s + t)[j]
    {
      if i < |s| <= j {
        assert t[j - |s|] in Elems(t) && s[i] in s;
      }
    }
  }

  /** Collectable, as far as it can be told before the objects of gone are deleted. */
  ghost predicate StillCollectable(known: set<Object>, r: Roots, objs: seq<Object>, gone: set<Object>)
    reads known`refs, known`freed, objs`hostRefCount
  {
    && (forall o :: o in known && o in Reach(known, r, objs) ==> !o.freed && o !in gone)
    && (var d := DeadList(known, r, objs); d != [] ==> d[|d| - 1].kind != TypeDef)
  }

  datatype SecondArgs = SecondArgs(rt: Runtime, objs: seq<Object>, gone: set<Object>, table: TypeTable)

  twostate lemma AfterYoungPass(a: SecondArgs)
    requires unchanged(a.rt`known, a.rt`roots) && unchanged(a.rt.known`refs, a.rt.known`hostRefCount)
    requires old(RefsKnown(a.rt.known, a.rt.Heap())) && RefsKnown(a.rt.known, a.rt.Heap())
    requires Elems(a.objs) <= a.rt.known && a.rt.Heap() == old(a.rt.Heap()) - a.gone && a.gone <= old(a.rt.Heap())
    ensures Collectable(a.rt.known, a.rt.roots, a.objs) <==>
              old(StillCollectable(a.rt.known, a.rt.roots, a.objs, a.gone))
    ensures Searchable(a.rt.known, a.rt.roots, a.objs, a.table) <==>
              old(Searchable(a.rt.known, a.rt.roots, a.objs, a.table))
  {
    assert forall o :: o in a.rt.known ==> (o.freed <==> old(o.freed) || o in a.gone);
  }

}
