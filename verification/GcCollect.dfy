/** One whole collection: marking, the two sweeps and the hand-over
    (Runtime::_gc_serial in slake/rt/gc_heapless.cc). */
module GcCollect {
  import opened SeqOps
  import opened GcObject
  import opened GcWalk
  import opened GcMark
  import opened GcSweep
  import opened GcTypeDefs

  /** Disordered: the search for a type definition to take out of the set has found one of another reading, or
      read past the end of a tuple. What becomes of the collection after that is not part of this model. */
  datatype Outcome = Completed | UseAfterFree | Disordered

  /** What marking leaves behind for the sweeps. */
  lemma AfterMark(ctx: GcWalkContext, heap: set<Object>, objs: seq<Object>, reach: set<Object>)
    requires ctx.Inv(heap, [], []) && ctx.order == Reverse(objs) && Marked(heap, reach) && NoneWalking(heap)
    requires Elems(objs) <= heap && Distinct(objs)
    ensures ctx.OnUnwalked(heap) && ctx.unwalked == Reverse(Without(objs, reach))
    ensures Elems(ctx.unwalked) == Elems(objs) - reach
    ensures GcsetLinked(ctx.walked) && Distinct(ctx.walked) && ctx.walkedList == At(ctx.walked, 0)
    ensures Elems(ctx.walked) == reach && forall o :: o in heap ==> !o.spinlock
    ensures Idle(heap - Elems(objs) - reach)
  {
    UnwalkedAfter(ctx, heap, objs, reach);
    WalkedAfter(ctx, heap, reach);
    IdleAfter(ctx, heap, objs, reach);
    hide *;
  }

  lemma UnwalkedAfter(ctx: GcWalkContext, heap: set<Object>, objs: seq<Object>, reach: set<Object>)
    requires ctx.Inv(heap, [], []) && ctx.order == Reverse(objs) && Marked(heap, reach) && NoneWalking(heap)
    ensures ctx.OnUnwalked(heap) && ctx.unwalked == Reverse(Without(objs, reach))
    ensures Elems(ctx.unwalked) == Elems(objs) - reach
  {
    ReverseElems(objs);
    GoneAsReached(ctx, heap, reach);
    assert ctx.OnUnwalked(heap) && ctx.unwalked == Without(ctx.order, ctx.gone);
    hide GcWalkContext.Inv, Marked, NoneWalking, Reverse, Without;
    assert Elems(ctx.order) * ctx.gone == Elems(ctx.order) * reach;
    WithoutSameOn(ctx.order, ctx.gone, reach);
    ReverseWithout(objs, reach);
    WithoutElems(ctx.order, reach);
  }

  /** Of the collected objects, those that have left the unwalked list are the reachable ones. */
  lemma GoneAsReached(ctx: GcWalkContext, heap: set<Object>, reach: set<Object>)
    requires ctx.Inv(heap, [], []) && Marked(heap, reach) && NoneWalking(heap)
    ensures forall o :: o in ctx.order ==> (o in ctx.gone <==> o in reach)
  {
    hide GcWalkContext.Shape, GcWalkContext.OffLists, Without;
  }

  lemma WalkedAfter(ctx: GcWalkContext, heap: set<Object>, reach: set<Object>)
    requires ctx.Inv(heap, [], []) && Marked(heap, reach) && NoneWalking(heap)
    ensures GcsetLinked(ctx.walked) && Distinct(ctx.walked) && ctx.walkedList == At(ctx.walked, 0)
    ensures Elems(ctx.walked) == reach && forall o :: o in heap ==> !o.spinlock
  {
    hide GcWalkContext.OffLists, GcWalkContext.Ordered, GcsetLinked;
    assert forall o :: o in Elems(ctx.walked) <==> o in reach;
  }

  lemma IdleAfter(ctx: GcWalkContext, heap: set<Object>, objs: seq<Object>, reach: set<Object>)
    requires ctx.Inv(heap, [], []) && ctx.order == Reverse(objs) && Marked(heap, reach) && NoneWalking(heap)
    ensures Idle(heap - Elems(objs) - reach)
  {
    UnwalkedCollected(ctx, heap, objs);
    hide GcWalkContext.Shape, GcWalkContext.Ordered, Reverse;
  }

  /** The unwalked objects are among the collected ones. */
  lemma UnwalkedCollected(ctx: GcWalkContext, heap: set<Object>, objs: seq<Object>)
    requires ctx.Inv(heap, [], []) && ctx.order == Reverse(objs)
    ensures forall o :: o in heap && o.home == UnwalkedHome ==> o in Elems(objs)
  {
    ReverseElems(objs);
    hide GcWalkContext.Shape, GcWalkContext.OffLists, GcWalkContext.Statuses, Reverse;
    WithoutElems(ctx.order, ctx.gone);
    hide Without;
    assert forall o :: o in ctx.unwalked ==> o in Elems(ctx.unwalked);
  }

  /** What the two sweeps together delete. */
  lemma SweptInTwo(todo: seq<Object>)
    requires Distinct(todo)
    ensures var (first, rest) := (TypeDefsOf(todo), Without(todo, TypeDefsOf(todo)));
            && Distinct(rest) && Elems(rest) !! first && first + Elems(rest) == Elems(todo)
            && Elems(rest) <= Elems(todo) && |first| + |Elems(rest)| == |todo|
  {
    var (first, rest) := (TypeDefsOf(todo), Without(todo, TypeDefsOf(todo)));
    WithoutElems(todo, first);
    WithoutDistinct(todo, first);
    TypeDefsAmong(todo);
    ElemsSize(todo);
    hide *;
    SplitOff(Elems(todo), first);
  }

  lemma TypeDefsAmong(todo: seq<Object>)
    ensures TypeDefsOf(todo) <= Elems(todo)
  {
  }

  lemma SplitOff(all: set<Object>, some: set<Object>)
    requires some <= all
    ensures some !! (all - some) && some + (all - some) == all && |some| + |all - some| == |all|
  {
  }

  /** The second sweep starts on a freed object exactly when the list began with a type definition. */
  lemma HeadFreed(ctx: GcWalkContext, objs: seq<Object>, list: Object?, end: Object?, alloc: PoolAlloc,
                  heap: set<Object>, todo: seq<Object>)
    requires Swept(objs, TypeDefsOf(todo), list, end, alloc, heap) && Elems(todo) <= Elems(objs) && Distinct(todo)
    requires IsTypeDefObject(At(todo, 0)) ==> ctx.unwalkedList == At(todo, 0)
    requires !IsTypeDefObject(At(todo, 0)) ==> ctx.OnUnwalked(heap) && ctx.unwalked == Without(todo, TypeDefsOf(todo))
    ensures IsTypeDefObject(At(todo, 0)) <==> ctx.unwalkedList != null && ctx.unwalkedList.freed
    ensures !IsTypeDefObject(At(todo, 0)) ==> ctx.unwalkedList == At(ctx.unwalked, 0) && GcsetLinked(ctx.unwalked)
  {
    if IsTypeDefObject(At(todo, 0)) {
      assert todo[0] in Elems(todo) && todo[0] in TypeDefsOf(todo);
    } else if ctx.unwalked != [] {
      assert ctx.unwalked[0] in ctx.unwalked && ctx.unwalked[0] in Elems(ctx.unwalked);
      SweptInTwo(todo);
    }
  }

  lemma UnwalkedHead(ctx: GcWalkContext, heap: set<Object>)
    requires ctx.OnUnwalked(heap)
    ensures ctx.unwalkedList == At(ctx.unwalked, 0) && Distinct(ctx.unwalked)
  {
  }

  /** Both sweeps. They fail exactly on a search that answers wrongly, or else when the list to delete begins with a
      type definition. */
  method Sweep(ctx: GcWalkContext, objectList: Object?, endObject: Object?, typeDefs: TypeTable, alloc: PoolAlloc,
               ghost objs: seq<Object>, ghost heap: set<Object>)
    returns (outcome: Outcome, list: Object?, end: Object?, table: TypeTable, deleted: nat)
    requires ctx.OnUnwalked(heap) && Elems(ctx.unwalked) <= Elems(objs)
    requires Swept(objs, {}, objectList, endObject, alloc, heap)
    requires TypesOk(typeDefs, objs, heap)
    modifies heap`nextSameGen, heap`prevSameGen, heap`freed, alloc`szAllocated
    modifies ctx`unwalkedList, ctx`unwalked, heap`nextSameGcset, heap`prevSameGcset
    ensures outcome == Disordered <==> !SearchesDefined(typeDefs, old(ctx.unwalked), |old(ctx.unwalked)|)
    ensures outcome != Disordered ==> (outcome == Completed <==> !IsTypeDefObject(old(ctx.unwalkedList)))
    ensures outcome == Completed ==> Swept(objs, Elems(old(ctx.unwalked)), list, end, alloc, heap)
    ensures outcome == Completed ==>
              deleted == |old(ctx.unwalked)| && table == typeDefs - KeysOf(TypeDefsOf(old(ctx.unwalked)))
    ensures forall o :: o in heap && o !in objs ==>
              o.nextSameGen == old(o.nextSameGen) && o.prevSameGen == old(o.prevSameGen)
    ensures forall o :: o in heap && o !in old(ctx.unwalked) ==>
              o.nextSameGcset == old(o.nextSameGcset) && o.prevSameGcset == old(o.prevSameGcset)
  {
    hide *;
    ghost var todo := ctx.unwalked;
    UnwalkedHead(ctx, heap);
    SweptInTwo(todo);
    var ok: bool;
    ok, list, end, table, deleted := SweepTypeDefs(ctx, objectList, endObject, typeDefs, alloc, objs, heap);
    if !ok {
      return Disordered, list, end, table, deleted;
    }
    HeadFreed(ctx, objs, list, end, alloc, heap, todo);
    var i := ctx.GetUnwalkedList(true);
    if i != null && i.freed {
      return UseAfterFree, list, end, table, deleted;
    }
    var more: nat;
    list, end, more := SweepAll(i, list, end, alloc, ctx.unwalked, objs, TypeDefsOf(todo), heap);
    return Completed, list, end, table, deleted + more;
  }

  /** The collected objects that marking does not reach, in list order. */
  ghost function DeadList(known: set<Object>, r: Roots, objs: seq<Object>): seq<Object>
    reads known`refs, objs`hostRefCount
  {
    Without(objs, Reach(known, r, objs))
  }

  /** When a collection touches no freed object: nothing reachable is dangling, and the
      collected list does not end, among the objects to delete, in a type definition. */
  ghost predicate Collectable(known: set<Object>, r: Roots, objs: seq<Object>)
    reads known`refs, known`freed, objs`hostRefCount, Reach(known, r, objs)`freed
  {
    && (forall o :: o in Reach(known, r, objs) ==> !o.freed)
    && (var d := DeadList(known, r, objs); d != [] ==> d[|d| - 1].kind != TypeDef)
  }

  /** When every search for a type definition to delete answers rightly: they are deleted from the back of the
      collected list. */
  ghost predicate Searchable(known: set<Object>, r: Roots, objs: seq<Object>, table: TypeTable)
    reads known`refs, objs`hostRefCount
  {
    var d := Reverse(DeadList(known, r, objs));
    SearchesDefined(table, d, |d|)
  }

  lemma ReverseLast(d: seq<Object>)
    ensures At(Reverse(d), 0) == At(d, |d| - 1) && TypeDefsOf(Reverse(d)) == TypeDefsOf(d) && |Reverse(d)| == |d|
  {
    ReverseElems(d);
    assert forall o :: o in Reverse(d) <==> o in Elems(Reverse(d));
    if d != [] {
      ReverseHead(d);
    }
  }

  lemma NoneSweptYet(objs: seq<Object>, list: Object?, end: Object?, alloc: PoolAlloc, heap: set<Object>)
    requires GenLinked(objs) && Distinct(objs) && Elems(objs) <= heap && list == At(objs, 0)
    requires end == At(objs, |objs| - 1)
    requires alloc.szAllocated == SumSizes(objs) && forall o :: o in heap ==> !o.freed
    ensures Swept(objs, {}, list, end, alloc, heap)
  {
    WithoutNothing(objs, {});
  }

  lemma CountLeft(objs: seq<Object>, reach: set<Object>)
    requires Distinct(objs)
    ensures |Without(objs, Elems(objs) - reach)| == |objs| - |Without(objs, reach)|
  {
    var dead := Elems(objs) - reach;
    WithoutElems(objs, dead);
    WithoutElems(objs, reach);
    WithoutDistinct(objs, dead);
    WithoutDistinct(objs, reach);
    ElemsSize(objs);
    ElemsSize(Without(objs, dead));
    ElemsSize(Without(objs, reach));
    assert Elems(objs) == Elems(Without(objs, dead)) + Elems(Without(objs, reach));
  }

  /** What the collector relies on: the list it is given, its counters, and the type table. */
  ghost predicate Collection(known: set<Object>, heap: set<Object>, r: Roots, objs: seq<Object>, list: Object?,
                             num: nat, typeDefs: TypeTable, alloc: PoolAlloc)
    reads known, heap, objs, alloc
  {
    && RefsKnown(known, heap) && Objects(RootList(r)) <= known
    && GenLinked(objs) && Distinct(objs) && Elems(objs) <= heap && list == At(objs, 0) && num == |objs|
    && Idle(heap - Elems(objs)) && (forall o :: o in objs ==> !o.spinlock)
    && alloc.szAllocated == SumSizes(objs) && TypesOk(typeDefs, objs, heap)
  }

  /** Marking is over, and nothing has been swept yet. */
  ghost predicate ReadyToSweep(ctx: GcWalkContext, heap: set<Object>, objs: seq<Object>, reach: set<Object>,
                               list: Object?, end: Object?, typeDefs: TypeTable, alloc: PoolAlloc)
    reads ctx, heap, alloc
  {
    && ctx.OnUnwalked(heap) && ctx.unwalked == Reverse(Without(objs, reach))
    && Elems(ctx.walked) == reach && reach <= heap
    && GcsetLinked(ctx.walked) && Distinct(ctx.walked) && ctx.walkedList == At(ctx.walked, 0)
    && (forall o :: o in heap ==> !o.spinlock) && Idle(heap - Elems(objs) - reach)
    && Swept(objs, {}, list, end, alloc, heap) && TypesOk(typeDefs, objs, heap)
  }

  lemma SweepFacts(ctx: GcWalkContext, heap: set<Object>, objs: seq<Object>, reach: set<Object>,
                   list: Object?, end: Object?, typeDefs: TypeTable, alloc: PoolAlloc)
    requires ReadyToSweep(ctx, heap, objs, reach, list, end, typeDefs, alloc)
    ensures ctx.OnUnwalked(heap) && Elems(ctx.unwalked) == Elems(objs) - reach && Elems(ctx.unwalked) <= Elems(objs)
    ensures ctx.unwalkedList == At(Without(objs, reach), |Without(objs, reach)| - 1)
    ensures ctx.unwalked == Reverse(Without(objs, reach))
    ensures |ctx.unwalked| == |Without(objs, reach)| && TypeDefsOf(ctx.unwalked) == TypeDefsOf(Without(objs, reach))
    ensures GcsetLinked(ctx.walked) && Distinct(ctx.walked) && ctx.walkedList == At(ctx.walked, 0)
    ensures Elems(ctx.walked) <= heap && forall o :: o in ctx.walked ==> !o.spinlock
    ensures Elems(ctx.walked) == reach && Elems(ctx.unwalked) !! reach && Idle(heap - Elems(objs) - reach)
    ensures Swept(objs, {}, list, end, alloc, heap) && TypesOk(typeDefs, objs, heap)
  {
    var d := Without(objs, reach);
    ReverseLast(d);
    ReverseElems(d);
    WithoutElems(objs, reach);
    assert forall o :: o in ctx.walked ==> o in Elems(ctx.walked);
  }

  datatype KeepArgs = KeepArgs(heap: set<Object>, objs: seq<Object>, unwalked: seq<Object>, walked: seq<Object>)

  /** The sweeps leave the work-set pointers of everything they do not delete. */
  twostate lemma SweepKeepsOthers(k: KeepArgs)
    requires forall o :: o in k.heap && o !in k.unwalked ==>
               o.nextSameGcset == old(o.nextSameGcset) && o.prevSameGcset == old(o.prevSameGcset)
    requires forall o :: o in k.heap ==>
              o.home == old(o.home) && o.gcStatus == old(o.gcStatus) && o.spinlock == old(o.spinlock)
    requires Elems(k.unwalked) !! Elems(k.walked)
    requires Elems(k.walked) <= k.heap && Elems(k.unwalked) <= Elems(k.objs)
    requires old(GcsetLinked(k.walked)) && old(Idle(k.heap - Elems(k.objs) - Elems(k.walked)))
    ensures GcsetLinked(k.walked) && Idle(k.heap - Elems(k.objs) - Elems(k.walked))
  {
    assert forall o :: o in k.walked ==> o in Elems(k.walked);
    assert forall o :: o in k.unwalked ==> o in Elems(k.unwalked);
  }

  datatype HandArgs = HandArgs(heap: set<Object>, objs: seq<Object>, walked: seq<Object>, generation: Generation)

  twostate lemma HandOverLeavesIdle(h: HandArgs)
    requires HandedOver(h.walked, h.generation) && OnlyTheseMoved(h.walked, h.heap)
    requires forall o :: o in h.heap ==> o.spinlock == old(o.spinlock)
    requires old(Idle(h.heap - Elems(h.objs) - Elems(h.walked))) && Elems(h.walked) <= h.heap
    ensures Idle(h.heap - (Elems(h.objs) - Elems(h.walked)))
    ensures forall o :: o in h.heap ==> o.generation == if o in Elems(h.walked) then h.generation else old(o.generation)
  {
    assert forall o :: o in h.walked <==> o in Elems(h.walked);
  }


  /** Everything after marking. */
  method SweepAndHandOver(ctx: GcWalkContext, objectList: Object?, endObject: Object?, newGeneration: Generation,
                          typeDefs: TypeTable, alloc: PoolAlloc, ghost heap: set<Object>, ghost objs: seq<Object>,
                              ghost reach: set<Object>)
    returns (outcome: Outcome, list: Object?, end: Object?, table: TypeTable, deleted: nat)
    requires ReadyToSweep(ctx, heap, objs, reach, objectList, endObject, typeDefs, alloc)
    modifies heap`nextSameGen, heap`prevSameGen, heap`freed, alloc`szAllocated
    modifies ctx`unwalkedList, ctx`unwalked, heap`nextSameGcset, heap`prevSameGcset
    modifies heap`gcStatus, heap`home, heap`generation
    ensures outcome == Disordered <==>
              !SearchesDefined(typeDefs, Reverse(Without(objs, reach)), |Reverse(Without(objs, reach))|)
    ensures outcome != Disordered ==>
              (outcome == Completed <==> !IsTypeDefObject(At(Without(objs, reach), |Without(objs, reach)| - 1)))
    ensures outcome == Completed ==> Swept(objs, Elems(objs) - reach, list, end, alloc, heap)
    ensures outcome == Completed ==>
              deleted == |Without(objs, reach)| && table == typeDefs - KeysOf(TypeDefsOf(Without(objs, reach)))
    ensures outcome == Completed ==> Idle(heap - (Elems(objs) - reach))
    ensures outcome == Completed ==> forall o :: o in heap ==>
              o.generation == if o in reach then newGeneration else old(o.generation)
    ensures forall o :: o in heap && o !in objs ==>
              o.nextSameGen == old(o.nextSameGen) && o.prevSameGen == old(o.prevSameGen)
  {
    hide *;
    SweepFacts(ctx, heap, objs, reach, objectList, endObject, typeDefs, alloc);
    ghost var walked, k := ctx.walked, KeepArgs(heap, objs, ctx.unwalked, ctx.walked);
    outcome, list, end, table, deleted := Sweep(ctx, objectList, endObject, typeDefs, alloc, objs, heap);
    if outcome == Completed {
      SweepKeepsOthers(k);
      label AfterSweep:
      HandOver(ctx, newGeneration, heap, walked);
      HandOverLeavesIdle@AfterSweep(HandArgs(heap, objs, walked, newGeneration));
    }
  }

  /** Marking and its outcome, as the sweeps find it. */
  lemma Marking(ctx: GcWalkContext, known: set<Object>, heap: set<Object>, r: Roots, objs: seq<Object>,
                reach: set<Object>, list: Object?, end: Object?, typeDefs: TypeTable, alloc: PoolAlloc)
    requires ctx.Inv(heap, [], []) && ctx.order == Reverse(objs) && Marked(heap, reach) && NoneWalking(heap)
    requires GenLinked(objs) && Distinct(objs) && Elems(objs) <= heap && list == At(objs, 0)
    requires end == At(objs, |objs| - 1)
    requires alloc.szAllocated == SumSizes(objs) && TypesOk(typeDefs, objs, heap) && forall o :: o in heap ==> !o.freed
    ensures ReadyToSweep(ctx, heap, objs, reach, list, end, typeDefs, alloc)
  {
    AfterMark(ctx, heap, objs, reach);
    NoneSweptYet(objs, list, end, alloc, heap);
    assert reach <= heap;
  }

  lemma CollectionFacts(known: set<Object>, heap: set<Object>, r: Roots, objs: seq<Object>, list: Object?, num: nat,
                        typeDefs: TypeTable, alloc: PoolAlloc)
    requires Collection(known, heap, r, objs, list, num, typeDefs, alloc)
    ensures RefsKnown(known, heap) && Objects(RootList(r)) <= known
    ensures GenLinked(objs) && Distinct(objs) && Elems(objs) <= heap && list == At(objs, 0) && num == |objs|
    ensures Idle(heap - Elems(objs)) && (forall o :: o in objs ==> !o.spinlock)
    ensures alloc.szAllocated == SumSizes(objs) && TypesOk(typeDefs, objs, heap) && forall o :: o in heap ==> !o.freed
    ensures Collectable(known, r, objs) <==>
      (forall o :: o in Reach(known, r, objs) ==> !o.freed)
      && !IsTypeDefObject(At(DeadList(known, r, objs), |DeadList(known, r, objs)| - 1))
    ensures DeadList(known, r, objs) == Without(objs, Reach(known, r, objs))
    ensures Searchable(known, r, objs, typeDefs) <==>
      SearchesDefined(typeDefs, Reverse(DeadList(known, r, objs)), |Reverse(DeadList(known, r, objs))|)
    ensures |objs| >= |DeadList(known, r, objs)| && Reach(known, r, objs) <= known
    ensures |Without(objs, Elems(objs) - Reach(known, r, objs))| == |objs| - |DeadList(known, r, objs)|
  {
    CountLeft(objs, Reach(known, r, objs));
  }

  /** One collection of one generation. It completes exactly when it is Collectable and Searchable; it then
      deletes the unreachable objects of its list and no other, and hands the reachable ones over. */
  method GcSerial(r: Roots, objectList: Object?, numObjects: nat, newGeneration: Generation, typeDefs: TypeTable,
                  alloc: PoolAlloc, ghost known: set<Object>, ghost heap: set<Object>, ghost objs: seq<Object>)
    returns (outcome: Outcome, list: Object?, end: Object?, num: nat, table: TypeTable)
    requires Collection(known, heap, r, objs, objectList, numObjects, typeDefs, alloc)
    modifies heap`gcStatus, heap`home, heap`spinlock, heap`nextSameGcset, heap`prevSameGcset
    modifies heap`nextSameGen, heap`prevSameGen, heap`freed, heap`generation, alloc`szAllocated
    ensures outcome == Completed <==> old(Collectable(known, r, objs) && Searchable(known, r, objs, typeDefs))
    ensures outcome == Disordered ==> old(!Searchable(known, r, objs, typeDefs))
    ensures outcome == UseAfterFree ==> old(!Collectable(known, r, objs))
    ensures outcome == Completed ==>
      var reach := old(Reach(known, r, objs));
      && Swept(objs, Elems(objs) - reach, list, end, alloc, heap)
      && num == |Without(objs, Elems(objs) - reach)|
      && table == typeDefs - KeysOf(TypeDefsOf(old(DeadList(known, r, objs))))
      && Idle(heap - (Elems(objs) - reach))
      && (forall o :: o in heap ==> o.generation == if o in reach then newGeneration else old(o.generation))
    ensures forall o :: o in heap && o !in objs ==>
              o.nextSameGen == old(o.nextSameGen) && o.prevSameGen == old(o.prevSameGen)
  {
    hide *;
    CollectionFacts(known, heap, r, objs, objectList, numObjects, typeDefs, alloc);
    ghost var reach := Reach(known, r, objs);
    var ctx := new GcWalkContext();
    var ok: bool;
    ok, end := Mark(ctx, r, objectList, known, heap, objs);
    list, num, table := objectList, numObjects, typeDefs;
    if !ok {
      return UseAfterFree, list, end, num, table;
    }
    Marking(ctx, known, heap, r, objs, reach, list, end, typeDefs, alloc);
    var deleted: nat;
    outcome, list, end, table, deleted := SweepAndHandOver(ctx, list, end, newGeneration, typeDefs, alloc, heap, objs,
        reach);
    if outcome == Completed {
      num := num - deleted;
    }
  }
}
