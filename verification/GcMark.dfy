/** Marking from the roots: what Runtime::_gc_serial does before it sweeps. */
module GcMark {
  import opened SeqOps
  import opened GcObject
  import opened GcWalk
  import opened Reachability

  /** Which objects each known object refers to. */
  ghost function Graph(known: set<Object>): map<Object, set<Object>>
    reads known`refs
  {
    map o | o in known :: set r: Object | r in o.refs
  }

  /** known holds the live objects of heap and the freed ones that something may still point to. */
  ghost predicate RefsKnown(known: set<Object>, heap: set<Object>)
    reads known`refs, known`freed
  {
    && heap <= known
    && (forall o :: o in known ==> (o in heap <==> !o.freed))
    && (forall o, p :: o in known && p in o.refs && p != null ==> p in known)
  }

  /** reach is closed under the references of the live objects. */
  ghost predicate ReachClosed(heap: set<Object>, reach: set<Object>)
    reads heap`refs
  {
    forall o, r :: o in heap && o in reach && r in o.refs && r != null ==> r in reach
  }

  /** Only reachable objects have left the unwalked state. */
  ghost predicate Sound(heap: set<Object>, reach: set<Object>)
    reads heap`gcStatus
  {
    forall o :: o in heap && o.gcStatus != Unwalked ==> o in reach
  }

  /** Everything a walked object refers to is live and at least ready to be walked. */
  ghost predicate Complete(heap: set<Object>)
    reads heap
  {
    forall o, r :: o in heap && o.gcStatus == Walked && r in o.refs && r != null ==>
      r in heap && r.gcStatus != Unwalked
  }

  ghost function NotWalked(heap: set<Object>): set<Object>
    reads heap
  {
    set o | o in heap && o.gcStatus != Walked
  }

  /** Between collections no object is on a work list. */
  ghost predicate Idle(objects: set<Object>)
    reads objects`home, objects`gcStatus, objects`spinlock, objects`nextSameGcset, objects`prevSameGcset
  {
    forall o :: o in objects ==>
      o.home == LooseHome && o.gcStatus == Unwalked && !o.spinlock
      && o.nextSameGcset == null && o.prevSameGcset == null
  }

  /** The part of the heap a scan has covered after n objects of the collected list. */
  ghost function Covered(heap: set<Object>, objs: seq<Object>, n: nat): (r: set<Object>)
    requires n <= |objs|
    ensures r <= heap
  {
    heap - Elems(objs[n..])
  }

  lemma CoveredStep(heap: set<Object>, objs: seq<Object>, n: nat)
    requires n < |objs| && Distinct(objs) && Elems(objs) <= heap
    ensures Covered(heap, objs, n + 1) == Covered(heap, objs, n) + {objs[n]}
    ensures objs[n] !in Covered(heap, objs, n)
  {
    assert objs[n] in objs && objs[n] in objs[n..] && objs[n] in heap;
    assert objs[n..] == [objs[n]] + objs[n + 1..];
  }

  lemma StartInv(ctx: GcWalkContext, idle: set<Object>)
    requires ctx.unwalked == [] && ctx.walkable == [] && ctx.walked == [] && ctx.order == [] && ctx.gone == {}
    requires ctx.walkableList == null && ctx.unwalkedList == null && ctx.walkedList == null && Idle(idle)
    ensures ctx.Inv(idle, [], [])
  {
  }

  /** The host-referenced objects among s, last first. */
  ghost function HostsOf(s: seq<Object>): seq<Object>
    reads s`hostRefCount
  {
    if s == [] then []
    else if s[|s| - 1].hostRefCount != 0 then [s[|s| - 1]] + HostsOf(s[..|s| - 1])
    else HostsOf(s[..|s| - 1])
  }

  lemma {:induction false} HostsOfElems(s: seq<Object>)
    ensures forall o :: o in HostsOf(s) <==> o in s && o.hostRefCount != 0
  {
    if s != [] {
      HostsOfElems(s[..|s| - 1]);
      assert s == s[..|s| - 1] + [s[|s| - 1]];
    }
  }

  /** Exactly the objects of ready have been pushed, and none has been walked. */
  ghost predicate OnlyReady(heap: set<Object>, ready: set<Object>)
    reads heap
  {
    && ready <= heap
    && (forall o :: o in heap ==> o.home != WalkingHome && o.gcStatus == if o in ready then ReadyToWalk else Unwalked)
  }

  /** Resets the collected list and splits it into host-referenced and other objects. */
  method Scan(ctx: GcWalkContext, objectList: Object?, ghost heap: set<Object>, ghost objs: seq<Object>)
    returns (hostRefList: Object?, endObject: Object?, ghost hosts: seq<Object>)
    requires ctx.unwalked == [] && ctx.walkable == [] && ctx.walked == [] && ctx.order == [] && ctx.gone == {}
    requires ctx.walkableList == null && ctx.unwalkedList == null && ctx.walkedList == null
    requires GenLinked(objs) && Distinct(objs) && Elems(objs) <= heap && objectList == At(objs, 0)
    requires Idle(heap - Elems(objs)) && forall o :: o in objs ==> !o.spinlock
    modifies ctx, heap`gcStatus, heap`home, heap`nextSameGcset, heap`prevSameGcset
    ensures ctx.Inv(heap, hosts, []) && hostRefList == At(hosts, 0) && hosts == HostsOf(objs)
    ensures endObject == At(objs, |objs| - 1) && ctx.order == Reverse(objs)
    ensures OnlyReady(heap, {})
  {
    hide *;
    hostRefList, hosts, endObject := null, [], null;
    NoneScanned(ctx, heap, objs);
    AtFacts(hosts);
    AtFacts(objs);
    var i := objectList;
    ghost var n := 0;
    while i != null
      invariant 0 <= n <= |objs| && i == At(objs, n) && endObject == At(objs, n - 1)
      invariant Scanned(ctx, heap, objs, hosts, n) && hostRefList == At(hosts, 0)
      decreases |objs| - n
    {
      NextInList(objs, n);
      hostRefList, hosts := ScanOne(ctx, i, hostRefList, heap, objs, hosts, n);
      endObject, i, n := i, i.nextSameGen, n + 1;
    }
    NextInList(objs, n);
    AllScanned(ctx, heap, objs, hosts);
  }

  /** The first n of the objects are on the two lists. */
  ghost predicate Scanned(ctx: GcWalkContext, heap: set<Object>, objs: seq<Object>, hosts: seq<Object>, n: nat)
    requires n <= |objs|
    reads ctx, heap, objs`hostRefCount
  {
    && ctx.Inv(Covered(heap, objs, n), hosts, []) && ctx.gone <= Covered(heap, objs, n)
    && hosts == HostsOf(objs[..n]) && ctx.order == Reverse(objs[..n])
    && forall o :: o in Covered(heap, objs, n) ==> o.gcStatus == Unwalked && o.home != WalkingHome
  }

  lemma NoneScanned(ctx: GcWalkContext, heap: set<Object>, objs: seq<Object>)
    requires ctx.unwalked == [] && ctx.walkable == [] && ctx.walked == [] && ctx.order == [] && ctx.gone == {}
    requires ctx.walkableList == null && ctx.unwalkedList == null && ctx.walkedList == null
    requires Idle(heap - Elems(objs))
    ensures Scanned(ctx, heap, objs, [], 0)
  {
    NoneCovered(heap, objs);
    StartInv(ctx, Covered(heap, objs, 0));
    hide GcWalkContext.Inv, Covered, HostsOf, Reverse;
  }

  lemma AtFacts(s: seq<Object>)
    ensures s == [] ==> At(s, 0) == null
    ensures At(s, -1) == null && At(s, |s|) == null
  {
  }

  /** Where the list goes on from its n-th object. */
  lemma NextInList(objs: seq<Object>, n: nat)
    requires n <= |objs| && GenLinked(objs)
    ensures At(objs, n) != null ==>
              n < |objs| && objs[n] == At(objs, n) && objs[n].nextSameGen == At(objs, n + 1) && objs[n] in objs
    ensures At(objs, n) == null ==> n == |objs|
  {
  }

  lemma AllScanned(ctx: GcWalkContext, heap: set<Object>, objs: seq<Object>, hosts: seq<Object>)
    requires Scanned(ctx, heap, objs, hosts, |objs|)
    ensures ctx.Inv(heap, hosts, []) && hosts == HostsOf(objs) && ctx.order == Reverse(objs) && OnlyReady(heap, {})
  {
    assert objs[..|objs|] == objs;
    AllCovered(heap, objs);
    hide GcWalkContext.Inv, HostsOf, Reverse, Covered;
  }

  method ScanOne(ctx: GcWalkContext, i: Object, hostRefList: Object?, ghost heap: set<Object>, ghost objs: seq<Object>,
                 ghost hosts: seq<Object>, ghost n: nat) returns (newHostRefList: Object?, ghost newHosts: seq<Object>)
    requires n < |objs| && i == objs[n] && Scanned(ctx, heap, objs, hosts, n) && hostRefList == At(hosts, 0)
    requires Distinct(objs) && Elems(objs) <= heap && !i.spinlock
    modifies ctx, heap`gcStatus, heap`home, heap`nextSameGcset, heap`prevSameGcset
    ensures Scanned(ctx, heap, objs, newHosts, n + 1) && newHostRefList == At(newHosts, 0)
  {
    hide *;
    ghost var covered := CoveredSoFar(ctx, heap, objs, hosts, n);
    newHostRefList, newHosts := Enlist(ctx, i, hostRefList, covered, hosts);
    OneScanned(ctx, heap, objs, newHosts, n, covered);
  }

  lemma CoveredSoFar(ctx: GcWalkContext, heap: set<Object>, objs: seq<Object>, hosts: seq<Object>, n: nat)
    returns (covered: set<Object>)
    requires n < |objs| && Scanned(ctx, heap, objs, hosts, n) && Distinct(objs) && Elems(objs) <= heap
    ensures covered == Covered(heap, objs, n) && covered <= heap && objs[n] !in covered && objs[n] in heap
    ensures ctx.Inv(covered, hosts, []) && ctx.gone <= covered
    ensures hosts == HostsOf(objs[..n]) && ctx.order == Reverse(objs[..n])
    ensures forall o :: o in covered ==> o.gcStatus == Unwalked && o.home != WalkingHome
  {
    covered := Covered(heap, objs, n);
    CoveredStep(heap, objs, n);
    assert objs[n] in Elems(objs);
    hide GcWalkContext.Inv, Distinct, Covered, HostsOf, Reverse;
  }

  lemma OneScanned(ctx: GcWalkContext, heap: set<Object>, objs: seq<Object>, hosts: seq<Object>, n: nat,
                   covered: set<Object>)
    requires n < |objs| && covered == Covered(heap, objs, n) && Distinct(objs) && Elems(objs) <= heap
    requires ctx.Inv(covered + {objs[n]}, hosts, []) && ctx.gone <= covered + {objs[n]}
    requires hosts == if objs[n].hostRefCount != 0 then [objs[n]] + HostsOf(objs[..n]) else HostsOf(objs[..n])
    requires ctx.order == [objs[n]] + Reverse(objs[..n])
    requires forall o :: o in covered + {objs[n]} ==> o.gcStatus == Unwalked && o.home != WalkingHome
    ensures Scanned(ctx, heap, objs, hosts, n + 1)
  {
    CoveredStep(heap, objs, n);
    CursorStep(objs, n);
    ReverseSnoc(objs[..n], objs[n]);
    HostsOfSnoc(objs, n);
    hide GcWalkContext.Inv, Distinct, Covered, HostsOf, Reverse;
  }

  lemma NoneCovered(heap: set<Object>, objs: seq<Object>)
    ensures Covered(heap, objs, 0) == heap - Elems(objs)
    ensures HostsOf(objs[..0]) == [] && Reverse(objs[..0]) == []
  {
    assert objs[0..] == objs;
  }

  lemma AllCovered(heap: set<Object>, objs: seq<Object>)
    ensures Covered(heap, objs, |objs|) == heap
  {
  }

  lemma HostsOfSnoc(objs: seq<Object>, n: nat)
    requires n < |objs|
    ensures HostsOf(objs[..n + 1]) == if objs[n].hostRefCount != 0 then [objs[n]] + HostsOf(objs[..n])
              else HostsOf(objs[..n])
  {
    assert objs[..n + 1][..n] == objs[..n];
  }

  /** Puts the next object of the collected list on one of the two starting lists. */
  method Enlist(ctx: GcWalkContext, i: Object, hostRefList: Object?, ghost heap: set<Object>, ghost hosts: seq<Object>)
    returns (newHostRefList: Object?, ghost newHosts: seq<Object>)
    requires ctx.Inv(heap, hosts, []) && ctx.gone <= heap && hostRefList == At(hosts, 0)
    requires i !in heap && !i.spinlock
    modifies ctx, i`gcStatus, i`home, i`nextSameGcset, i`prevSameGcset, heap`prevSameGcset
    ensures ctx.Inv(heap + {i}, newHosts, []) && ctx.gone <= heap + {i} && newHostRefList == At(newHosts, 0)
    ensures newHosts == if i.hostRefCount != 0 then [i] + hosts else hosts
    ensures ctx.order == [i] + old(ctx.order)
    ensures i.gcStatus == Unwalked && i.home != WalkingHome
  {
    HeadsKnown(ctx, heap, hosts);
    hide GcWalkContext.Inv;
    if i.hostRefCount == 0 {
      newHostRefList, newHosts := hostRefList, hosts;
      EnlistUnwalked(ctx, i, heap, hosts);
    } else {
      newHostRefList, newHosts := i, [i] + hosts;
      EnlistHost(ctx, i, hostRefList, heap, hosts);
    }
    EnlistKeepsInv(EnlistArgs(ctx, i, heap, hosts));
  }

  method EnlistUnwalked(ctx: GcWalkContext, i: Object, ghost heap: set<Object>, ghost hosts: seq<Object>)
    requires ctx.unwalkedList == At(ctx.unwalked, 0) && (ctx.unwalkedList != null ==> ctx.unwalkedList in heap)
    requires i !in heap && !i.spinlock && i.hostRefCount == 0
    modifies ctx`unwalkedList, ctx`unwalked, ctx`order, i`gcStatus, i`home, i`nextSameGcset, i`prevSameGcset
    modifies heap`prevSameGcset
    ensures Enlisted(EnlistArgs(ctx, i, heap, hosts))
  {
    i.gcStatus, i.nextSameGcset, i.prevSameGcset := Unwalked, null, null;
    ctx.PushUnwalked(i);
    i.home, ctx.unwalked, ctx.order := UnwalkedHome, [i] + ctx.unwalked, [i] + ctx.order;
  }

  method EnlistHost(ctx: GcWalkContext, i: Object, hostRefList: Object?, ghost heap: set<Object>,
                    ghost hosts: seq<Object>)
    requires hostRefList == At(hosts, 0) && (hosts != [] ==> hosts[0] in heap)
    requires i !in heap && !i.spinlock && i.hostRefCount != 0
    modifies ctx`order, ctx`gone, i`gcStatus, i`home, i`nextSameGcset, i`prevSameGcset, heap`prevSameGcset
    ensures Enlisted(EnlistArgs(ctx, i, heap, hosts))
  {
    i.gcStatus, i.nextSameGcset, i.prevSameGcset := Unwalked, null, null;
    if hostRefList != null {
      hostRefList.prevSameGcset := i;
    }
    i.nextSameGcset := hostRefList;
    i.home, ctx.gone, ctx.order := HostHome, ctx.gone + {i}, [i] + ctx.order;
  }

  lemma HeadsKnown(ctx: GcWalkContext, heap: set<Object>, hosts: seq<Object>)
    requires ctx.Inv(heap, hosts, [])
    ensures ctx.unwalkedList == At(ctx.unwalked, 0) && (ctx.unwalkedList != null ==> ctx.unwalkedList in heap)
    ensures hosts != [] ==> hosts[0] in heap
  {
  }

  ghost function NonNull(o: Object?): set<Object> {
    if o == null then {} else {o}
  }

  /** Pushes one root. Fails if it is dangling. */
  method PushRoot(ctx: GcWalkContext, obj: Object?, ghost heap: set<Object>, ghost hosts: seq<Object>,
                  ghost ready: set<Object>)
    returns (ok: bool)
    requires ctx.Inv(heap, hosts, []) && OnlyReady(heap, ready) && (hosts == [] || obj == hosts[0])
    requires (obj != null ==> obj in heap || obj.freed) && forall o :: o in heap ==> !o.freed
    modifies ctx, heap`gcStatus, heap`home, heap`spinlock, heap`nextSameGcset, heap`prevSameGcset
    ensures ok <==> (obj != null ==> !obj.freed)
    ensures ok ==> ctx.Inv(heap, if hosts == [] then [] else hosts[1..], []) && ctx.order == old(ctx.order)
    ensures ok ==> OnlyReady(heap, ready + NonNull(obj))
  {
    hide GcWalkContext.Inv;
    ok := ctx.PushObject(obj, heap, hosts, []);
  }

  /** Pushes the host-referenced objects of the collected list. */
  method PushHosts(ctx: GcWalkContext, hostRefList: Object?, ghost heap: set<Object>, ghost hosts: seq<Object>)
    requires ctx.Inv(heap, hosts, []) && hostRefList == At(hosts, 0)
    requires OnlyReady(heap, {}) && forall o :: o in heap ==> !o.freed
    modifies ctx, heap`gcStatus, heap`home, heap`spinlock, heap`nextSameGcset, heap`prevSameGcset
    ensures ctx.Inv(heap, [], []) && ctx.order == old(ctx.order)
    ensures OnlyReady(heap, Elems(hosts))
  {
    hide GcWalkContext.Inv;
    hide OnlyReady;
    var i := hostRefList;
    ghost var n := 0;
    assert hosts[0..] == hosts && Elems(hosts[..0]) == {};
    while i != null
      invariant 0 <= n <= |hosts| && i == At(hosts, n)
      invariant ctx.Inv(heap, hosts[n..], []) && ctx.order == old(ctx.order)
      invariant OnlyReady(heap, Elems(hosts[..n]))
      decreases |hosts| - n
    {
      HostsLinked(ctx, heap, hosts[n..]);
      var next := i.nextSameGcset;
      CursorStep(hosts, n);
      var ok := PushRoot(ctx, i, heap, hosts[n..], Elems(hosts[..n]));
      i, n := next, n + 1;
    }
    assert hosts[..n] == hosts && hosts[n..] == [];
  }

  lemma HostsLinked(ctx: GcWalkContext, heap: set<Object>, hosts: seq<Object>)
    requires ctx.Inv(heap, hosts, [])
    ensures forall i :: 0 <= i < |hosts| ==>
              hosts[i] in heap && hosts[i].home == HostHome && hosts[i].gcStatus == Unwalked
    ensures hosts != [] ==> hosts[0].nextSameGcset == At(hosts, 1)
  {
  }

  /** The runtime's own roots. The cache directory lists, for each original generic object,
      its instances; the root object and the contexts do not count while deinitialising. */
  datatype Roots = Roots(cacheDir: seq<(Object, seq<Object>)>, threadContexts: seq<Object?>,
                         deiniting: bool, rootObject: Object?, activeContexts: seq<Object?>)

  /** What is pushed for the instances of one original object. */
  ghost function TableRoots(original: Object, instances: seq<Object>): seq<Object?> {
    if instances == [] then [] else
      TableRoots(original, instances[..|instances| - 1]) + [original, instances[|instances| - 1]]
  }

  ghost function CacheRoots(dir: seq<(Object, seq<Object>)>): seq<Object?> {
    if dir == [] then [] else
      CacheRoots(dir[..|dir| - 1]) + TableRoots(dir[|dir| - 1].0, dir[|dir| - 1].1)
  }

  /** Every root pointer in the order in which it is pushed. */
  ghost function RootList(r: Roots): seq<Object?> {
    CacheRoots(r.cacheDir) + r.threadContexts
    + (if r.deiniting then [] else [r.rootObject] + r.activeContexts)
  }

  ghost function Objects(s: seq<Object?>): set<Object> {
    set o: Object | o in s
  }

  /** Pushes a list of pointers, all of them roots. */
  method PushAll(ctx: GcWalkContext, pointers: seq<Object?>, ghost heap: set<Object>, ghost ready: set<Object>)
    returns (ok: bool)
    requires ctx.Inv(heap, [], []) && OnlyReady(heap, ready)
    requires forall o :: o in pointers && o != null ==> o in heap || o.freed
    requires forall o :: o in heap ==> !o.freed
    modifies ctx, heap`gcStatus, heap`home, heap`spinlock, heap`nextSameGcset, heap`prevSameGcset
    ensures ok <==> forall o :: o in pointers && o != null ==> !o.freed
    ensures ok ==> ctx.Inv(heap, [], []) && ctx.order == old(ctx.order)
    ensures ok ==> OnlyReady(heap, ready + Objects(pointers))
  {
    hide GcWalkContext.Inv;
    hide OnlyReady;
    assert ready + Objects(pointers[..0]) == ready;
    for n := 0 to |pointers|
      invariant ctx.Inv(heap, [], []) && ctx.order == old(ctx.order)
      invariant OnlyReady(heap, ready + Objects(pointers[..n]))
      invariant forall o :: o in pointers[..n] && o != null ==> !o.freed
    {
      CursorStep(pointers, n);
      ok := PushRoot(ctx, pointers[n], heap, [], ready + Objects(pointers[..n]));
      if !ok {
        return;
      }
      assert ready + Objects(pointers[..n + 1]) == ready + Objects(pointers[..n]) + NonNull(pointers[n]);
    }
    assert pointers[..|pointers|] == pointers;
    return true;
  }

  /** Pushes both sides of every entry of one original object's instance table. */
  method PushTable(ctx: GcWalkContext, original: Object, instances: seq<Object>, ghost heap: set<Object>,
                   ghost ready: set<Object>)
    returns (ok: bool)
    requires ctx.Inv(heap, [], []) && OnlyReady(heap, ready)
    requires forall o :: o in TableRoots(original, instances) && o != null ==> o in heap || o.freed
    requires forall o :: o in heap ==> !o.freed
    modifies ctx, heap`gcStatus, heap`home, heap`spinlock, heap`nextSameGcset, heap`prevSameGcset
    ensures ok <==> forall o :: o in TableRoots(original, instances) && o != null ==> !o.freed
    ensures ok ==> ctx.Inv(heap, [], []) && ctx.order == old(ctx.order)
    ensures ok ==> OnlyReady(heap, ready + Objects(TableRoots(original, instances)))
  {
    hide GcWalkContext.Inv;
    hide OnlyReady;
    assert ready + Objects(TableRoots(original, instances[..0])) == ready;
    for n := 0 to |instances|
      invariant ctx.Inv(heap, [], []) && ctx.order == old(ctx.order)
      invariant OnlyReady(heap, ready + Objects(TableRoots(original, instances[..n])))
      invariant forall o :: o in TableRoots(original, instances[..n]) && o != null ==> !o.freed
    {
      TableStep(original, instances, n);
      ok := PushAll(ctx, [original, instances[n]], heap, ready + Objects(TableRoots(original, instances[..n])));
      if !ok {
        return;
      }
      assert ready + Objects(TableRoots(original, instances[..n + 1]))
          == ready + Objects(TableRoots(original, instances[..n])) + Objects([original, instances[n]]);
    }
    assert instances[..|instances|] == instances;
    return true;
  }

  lemma TableStep(original: Object, instances: seq<Object>, n: nat)
    requires n < |instances|
    ensures TableRoots(original, instances[..n + 1]) == TableRoots(original, instances[..n]) + [original, instances[n]]
    ensures forall o :: o in TableRoots(original, instances[..n + 1]) ==> o in TableRoots(original, instances)
  {
    CursorStep(instances, n);
    TablePrefix(original, instances, n + 1);
  }

  lemma {:induction false} TablePrefix(original: Object, instances: seq<Object>, n: nat)
    requires n <= |instances|
    ensures TableRoots(original, instances[..n]) <= TableRoots(original, instances)
  {
    if n == |instances| {
      assert instances[..n] == instances;
    } else {
      assert instances[..|instances| - 1][..n] == instances[..n];
      TablePrefix(original, instances[..|instances| - 1], n);
    }
  }


  /** Pushes both sides of every entry of the generic cache directory. */
  method PushCache(ctx: GcWalkContext, dir: seq<(Object, seq<Object>)>, ghost known: set<Object>,
                   ghost heap: set<Object>, ghost ready: set<Object>)
    returns (ok: bool)
    requires ctx.Inv(heap, [], []) && OnlyReady(heap, ready)
    requires Objects(CacheRoots(dir)) <= known && forall o :: o in known ==> o in heap || o.freed
    requires forall o :: o in heap ==> !o.freed
    modifies ctx, heap`gcStatus, heap`home, heap`spinlock, heap`nextSameGcset, heap`prevSameGcset
    ensures ok <==> forall o :: o in CacheRoots(dir) && o != null ==> !o.freed
    ensures ok ==> ctx.Inv(heap, [], []) && ctx.order == old(ctx.order)
    ensures ok ==> OnlyReady(heap, ready + Objects(CacheRoots(dir)))
  {
    hide GcWalkContext.Inv;
    hide OnlyReady;
    assert ready + Objects(CacheRoots(dir[..0])) == ready;
    for n := 0 to |dir|
      invariant ctx.Inv(heap, [], []) && ctx.order == old(ctx.order)
      invariant OnlyReady(heap, ready + Objects(CacheRoots(dir[..n])))
      invariant forall o :: o in CacheRoots(dir[..n]) && o != null ==> !o.freed
      invariant forall o :: o in known ==> o in heap || o.freed
    {
      CacheStep(dir, n);
      ok := PushTable(ctx, dir[n].0, dir[n].1, heap, ready + Objects(CacheRoots(dir[..n])));
      if !ok {
        return;
      }
      assert ready + Objects(CacheRoots(dir[..n + 1]))
          == ready + Objects(CacheRoots(dir[..n])) + Objects(TableRoots(dir[n].0, dir[n].1));
    }
    assert dir[..|dir|] == dir;
    return true;
  }

  lemma CacheStep(dir: seq<(Object, seq<Object>)>, n: nat)
    requires n < |dir|
    ensures CacheRoots(dir[..n + 1]) == CacheRoots(dir[..n]) + TableRoots(dir[n].0, dir[n].1)
    ensures forall o :: o in CacheRoots(dir[..n + 1]) ==> o in CacheRoots(dir)
    ensures Objects(TableRoots(dir[n].0, dir[n].1)) <= Objects(CacheRoots(dir))
  {
    CursorStep(dir, n);
    CachePrefix(dir, n + 1);
  }

  lemma {:induction false} CachePrefix(dir: seq<(Object, seq<Object>)>, n: nat)
    requires n <= |dir|
    ensures CacheRoots(dir[..n]) <= CacheRoots(dir)
  {
    if n == |dir| {
      assert dir[..n] == dir;
    } else {
      assert dir[..|dir| - 1][..n] == dir[..n];
      CachePrefix(dir[..|dir| - 1], n);
    }
  }

  /** Pushes every root that is not host-referenced. */
  method PushRoots(ctx: GcWalkContext, r: Roots, ghost known: set<Object>, ghost heap: set<Object>,
                   ghost ready: set<Object>)
    returns (ok: bool)
    requires ctx.Inv(heap, [], []) && OnlyReady(heap, ready)
    requires Objects(RootList(r)) <= known && forall o :: o in known ==> o in heap || o.freed
    requires forall o :: o in heap ==> !o.freed
    modifies ctx, heap`gcStatus, heap`home, heap`spinlock, heap`nextSameGcset, heap`prevSameGcset
    ensures ok <==> forall o :: o in RootList(r) && o != null ==> !o.freed
    ensures ok ==> ctx.Inv(heap, [], []) && ctx.order == old(ctx.order)
    ensures ok ==> OnlyReady(heap, ready + Objects(RootList(r)))
  {
    hide GcWalkContext.Inv;
    hide OnlyReady;
    ghost var pushed := ready;
    ok := PushCache(ctx, r.cacheDir, known, heap, pushed);
    if !ok {
      return;
    }
    pushed := pushed + Objects(CacheRoots(r.cacheDir));
    ok := PushAll(ctx, r.threadContexts, heap, pushed);
    if !ok {
      return;
    }
    pushed := pushed + Objects(r.threadContexts);
    if !r.deiniting {
      ok := PushAll(ctx, [r.rootObject], heap, pushed);
      if !ok {
        return;
      }
      pushed := pushed + Objects([r.rootObject]);
      ok := PushAll(ctx, r.activeContexts, heap, pushed);
      if !ok {
        return;
      }
      pushed := pushed + Objects(r.activeContexts);
    }
    assert pushed == ready + Objects(RootList(r));
  }

  /** Walks the next object of a batch: one more object has been walked, and all it refers to is pushed. */
  method WalkNext(ctx: GcWalkContext, v: Object, ghost known: set<Object>, ghost heap: set<Object>,
                  ghost reach: set<Object>, ghost batch: seq<Object>) returns (ok: bool)
    requires ctx.Inv(heap, [], batch) && NoneWalking(heap) && batch != [] && v == batch[0]
    requires RefsKnown(known, heap) && ReachClosed(heap, reach) && Sound(heap, reach) && Complete(heap)
    modifies ctx, heap`gcStatus, heap`home, heap`spinlock, heap`nextSameGcset, heap`prevSameGcset
    ensures ok ==> ctx.Inv(heap, [], batch[1..]) && NoneWalking(heap) && ctx.order == old(ctx.order)
    ensures ok ==> Sound(heap, reach) && Complete(heap) && NotWalked(heap) < old(NotWalked(heap))
    ensures ok ==> forall o :: o in heap && old(o.gcStatus) != Unwalked ==> o.gcStatus != Unwalked
    ensures !ok ==> exists r :: r in reach && r.freed
  {
    hide GcWalkContext.Inv, NoneWalking;
    ctx.BatchHead(heap, batch);
    assert v in NotWalked(heap);
    ok := ctx.GcWalk(v, heap, batch);
    assert ok ==> v !in NotWalked(heap);
  }

  /** Walks everything that is ready, batch by batch, until nothing is. */
  method MarkLoop(ctx: GcWalkContext, ghost known: set<Object>, ghost heap: set<Object>, ghost reach: set<Object>)
    returns (ok: bool)
    requires ctx.Inv(heap, [], []) && NoneWalking(heap)
    requires RefsKnown(known, heap) && ReachClosed(heap, reach) && Sound(heap, reach) && Complete(heap)
    modifies ctx, heap`gcStatus, heap`home, heap`spinlock, heap`nextSameGcset, heap`prevSameGcset
    ensures ok ==> ctx.Inv(heap, [], []) && ctx.walkable == [] && NoneWalking(heap) && ctx.order == old(ctx.order)
    ensures ok ==> Sound(heap, reach) && Complete(heap)
    ensures ok ==> forall o :: o in heap ==> o.gcStatus != ReadyToWalk
    ensures ok ==> forall o :: o in heap && old(o.gcStatus) != Unwalked ==> o.gcStatus != Unwalked
    ensures !ok ==> exists r :: r in reach && r.freed
  {
    hide GcWalkContext.Inv, NoneWalking, RefsKnown, ReachClosed, Complete;
    var p: Object?;
    ghost var batch: seq<Object>;
    p, batch := ctx.GetWalkableList(heap);
    StatusesAlike(StatusArgs(heap, reach));
    while p != null
      invariant ctx.Inv(heap, [], batch) && ctx.walkable == [] && NoneWalking(heap) && ctx.order == old(ctx.order)
      invariant p == At(batch, 0)
      invariant Sound(heap, reach) && Complete(heap)
      invariant forall o :: o in heap && old(o.gcStatus) != Unwalked ==> o.gcStatus != Unwalked
      decreases NotWalked(heap)
    {
      var i := p;
      ghost var before, all := NotWalked(heap), |batch|;
      while i != null
        invariant ctx.Inv(heap, [], batch) && NoneWalking(heap) && ctx.order == old(ctx.order)
        invariant i == At(batch, 0)
        invariant Sound(heap, reach) && Complete(heap)
        invariant forall o :: o in heap && old(o.gcStatus) != Unwalked ==> o.gcStatus != Unwalked
        invariant NotWalked(heap) <= before && (|batch| == all || NotWalked(heap) < before)
        decreases NotWalked(heap)
      {
        ctx.BatchHead(heap, batch);
        var next := i.nextSameGcset;
        match i.gcStatus {
          case Unwalked =>
            assert false;
          case ReadyToWalk =>
            ok := WalkNext(ctx, i, known, heap, reach, batch);
            if !ok {
              return;
            }
          case Walked =>
            assert false;
        }
        batch := batch[1..];
        i := next;
      }
      label Detaching:
      p, batch := ctx.GetWalkableList(heap);
      StatusesAlike@Detaching(StatusArgs(heap, reach));
    }
    ctx.NothingReady(heap);
    return true;
  }

  datatype StatusArgs = StatusArgs(heap: set<Object>, reach: set<Object>)

  /** What the statuses mean depends on nothing else. */
  twostate lemma StatusesAlike(a: StatusArgs)
    requires forall o :: o in a.heap ==> o.gcStatus == old(o.gcStatus) && o.refs == old(o.refs)
    ensures old(Sound(a.heap, a.reach)) ==> Sound(a.heap, a.reach)
    ensures old(Complete(a.heap)) ==> Complete(a.heap)
    ensures NotWalked(a.heap) == old(NotWalked(a.heap))
  {
  }

  /** Everything a collection of objs starts from. */
  ghost function RootSet(r: Roots, objs: seq<Object>): set<Object>
    reads objs`hostRefCount
  {
    Objects(RootList(r)) + set o | o in objs && o.hostRefCount != 0
  }

  /** The mark phase: it completes if and only if no reachable object has been freed, and
      then exactly the reachable objects are walked. */
  method Mark(ctx: GcWalkContext, r: Roots, objectList: Object?, ghost known: set<Object>, ghost heap: set<Object>,
              ghost objs: seq<Object>)
    returns (ok: bool, endObject: Object?)
    requires ctx.unwalked == [] && ctx.walkable == [] && ctx.walked == [] && ctx.order == [] && ctx.gone == {}
    requires ctx.walkableList == null && ctx.unwalkedList == null && ctx.walkedList == null
    requires GenLinked(objs) && Distinct(objs) && Elems(objs) <= heap && objectList == At(objs, 0)
    requires Idle(heap - Elems(objs)) && forall o :: o in objs ==> !o.spinlock
    requires RefsKnown(known, heap) && Objects(RootList(r)) <= known
    modifies ctx, heap`gcStatus, heap`home, heap`spinlock, heap`nextSameGcset, heap`prevSameGcset
    ensures ok <==> forall o :: o in Reach(known, r, objs) ==> !o.freed
    ensures ok ==> ctx.Inv(heap, [], []) && ctx.walkable == [] && ctx.order == Reverse(objs) && NoneWalking(heap)
    ensures ok ==> Marked(heap, Reach(known, r, objs))
    ensures endObject == At(objs, |objs| - 1)
  {
    hide *;
    ghost var reach := Reach(known, r, objs);
    ReachFacts(known, heap, r, objs);
    ok, endObject := StartMarking(ctx, r, objectList, known, heap, objs);
    if ok {
      ReadyToLoop(known, heap, reach, RootSet(r, objs));
      ok := MarkLoop(ctx, known, heap, reach);
      if ok {
        WalkedIsReach(known, heap, reach, r, objs);
      }
    }
  }

  /** Everything up to the mark loop: lists are built and all roots pushed. */
  method StartMarking(ctx: GcWalkContext, r: Roots, objectList: Object?, ghost known: set<Object>,
                      ghost heap: set<Object>, ghost objs: seq<Object>)
    returns (ok: bool, endObject: Object?)
    requires ctx.unwalked == [] && ctx.walkable == [] && ctx.walked == [] && ctx.order == [] && ctx.gone == {}
    requires ctx.walkableList == null && ctx.unwalkedList == null && ctx.walkedList == null
    requires GenLinked(objs) && Distinct(objs) && Elems(objs) <= heap && objectList == At(objs, 0)
    requires Idle(heap - Elems(objs)) && forall o :: o in objs ==> !o.spinlock
    requires RefsKnown(known, heap) && Objects(RootList(r)) <= known
    modifies ctx, heap`gcStatus, heap`home, heap`spinlock, heap`nextSameGcset, heap`prevSameGcset
    ensures ok ==> forall o :: o in RootSet(r, objs) ==> !o.freed
    ensures !ok ==> exists o :: o in RootSet(r, objs) && o.freed
    ensures ok ==> ctx.Inv(heap, [], []) && ctx.order == Reverse(objs) && OnlyReady(heap, RootSet(r, objs))
    ensures endObject == At(objs, |objs| - 1)
  {
    ghost var roots := RootSet(r, objs);
    hide *;
    RootFacts(known, heap, r, objs);
    endObject := PushHostRoots(ctx, objectList, heap, objs);
    ok := PushRoots(ctx, r, known, heap, Elems(HostsOf(objs)));
    assert roots == RootSet(r, objs);
  }

  method PushHostRoots(ctx: GcWalkContext, objectList: Object?, ghost heap: set<Object>, ghost objs: seq<Object>)
    returns (endObject: Object?)
    requires ctx.unwalked == [] && ctx.walkable == [] && ctx.walked == [] && ctx.order == [] && ctx.gone == {}
    requires ctx.walkableList == null && ctx.unwalkedList == null && ctx.walkedList == null
    requires GenLinked(objs) && Distinct(objs) && Elems(objs) <= heap && objectList == At(objs, 0)
    requires Idle(heap - Elems(objs)) && forall o :: o in objs ==> !o.spinlock
    requires forall o :: o in heap ==> !o.freed
    modifies ctx, heap`gcStatus, heap`home, heap`spinlock, heap`nextSameGcset, heap`prevSameGcset
    ensures ctx.Inv(heap, [], []) && ctx.order == Reverse(objs) && OnlyReady(heap, Elems(HostsOf(objs)))
    ensures endObject == At(objs, |objs| - 1)
  {
    hide *;
    var hostRefList: Object?;
    ghost var hosts: seq<Object>;
    hostRefList, endObject, hosts := Scan(ctx, objectList, heap, objs);
    PushHosts(ctx, hostRefList, heap, hosts);
  }

  /** Everything the collection of objs has to keep. */
  ghost function Reach(known: set<Object>, r: Roots, objs: seq<Object>): set<Object>
    reads known`refs, objs`hostRefCount
  {
    ReachSet(Graph(known), RootSet(r, objs))
  }

  /** Exactly the reachable objects are walked, and no other is even ready. */
  ghost predicate Marked(heap: set<Object>, reach: set<Object>)
    reads heap
  {
    && reach <= heap
    && (forall o :: o in heap ==> o.gcStatus == if o in reach then Walked else Unwalked)
  }

  lemma RootFacts(known: set<Object>, heap: set<Object>, r: Roots, objs: seq<Object>)
    requires RefsKnown(known, heap) && Objects(RootList(r)) <= known && Elems(objs) <= heap
    ensures RootSet(r, objs) == Elems(HostsOf(objs)) + Objects(RootList(r))
    ensures forall o :: o in RootList(r) && o != null ==> o in RootSet(r, objs)
    ensures forall o :: o in RootSet(r, objs) ==> o in RootList(r) || o in heap
    ensures forall o :: o in known ==> o in heap || o.freed
    ensures forall o :: o in heap ==> !o.freed
  {
    HostsOfElems(objs);
  }

  lemma ReachFacts(known: set<Object>, heap: set<Object>, r: Roots, objs: seq<Object>)
    requires RefsKnown(known, heap) && Objects(RootList(r)) <= known && Elems(objs) <= heap
    ensures ReachClosed(heap, Reach(known, r, objs))
    ensures RootSet(r, objs) <= Reach(known, r, objs)
  {
    ReachSetIsLeast(Graph(known), RootSet(r, objs));
  }

  lemma ReadyToLoop(known: set<Object>, heap: set<Object>, reach: set<Object>, roots: set<Object>)
    requires OnlyReady(heap, roots) && roots <= reach
    ensures Sound(heap, reach) && Complete(heap) && NoneWalking(heap)
    ensures forall o :: o in roots ==> o in heap && o.gcStatus != Unwalked
  {
  }

  /** A walked set that is sound, complete and holds the roots is the reachable set. */
  lemma WalkedIsReach(known: set<Object>, heap: set<Object>, reach: set<Object>, r: Roots, objs: seq<Object>)
    requires reach == Reach(known, r, objs)
    requires RefsKnown(known, heap) && Objects(RootList(r)) <= known && Elems(objs) <= heap
    requires Sound(heap, reach) && Complete(heap)
    requires forall o :: o in RootSet(r, objs) ==> o in heap && o.gcStatus != Unwalked
    requires forall o :: o in heap ==> o.gcStatus != ReadyToWalk
    ensures Marked(heap, reach) && forall o :: o in reach ==> !o.freed
  {
    var g := Graph(known);
    var walked := set o | o in heap && o.gcStatus == Walked;
    ReachSetIsLeast(g, RootSet(r, objs));
    assert RootSet(r, objs) <= walked && Closed(g, walked);
  }
}
