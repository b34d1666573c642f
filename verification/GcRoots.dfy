/** What a collection starts from and what it keeps, in terms of the runtime's own fields: the cache directory, the
    contexts, the root object, the host counts, and the references of objects. */
module GcRoots {
  import opened SeqOps
  import opened GcObject
  import opened GcMark
  import opened GcCollect
  import opened GcRuntime
  import opened GcProperties
  import opened Reachability

  lemma {:induction false} TableHas(original: Object, instances: seq<Object>, o: Object)
    ensures o in TableRoots(original, instances) <==> instances != [] && (o == original || o in instances)
  {
    if instances != [] {
      var front := instances[..|instances| - 1];
      TableHas(original, front, o);
      assert instances == front + [instances[|instances| - 1]];
    }
  }

  lemma {:induction false} CacheHas(dir: seq<(Object, seq<Object>)>, o: Object)
    ensures o in CacheRoots(dir) <==>
              exists i :: 0 <= i < |dir| && dir[i].1 != [] && (o == dir[i].0 || o in dir[i].1)
  {
    if dir != [] {
      var (front, n) := (dir[..|dir| - 1], |dir| - 1);
      CacheHas(front, o);
      TableHas(dir[n].0, dir[n].1, o);
      assert forall i :: 0 <= i < n ==> front[i] == dir[i];
    }
  }

  /** A collection of objs starts from exactly these: both sides of every entry of the cache directory, every
      thread's context, unless the runtime is being destroyed the root object and the active contexts, and what
      of objs the host holds. */
  lemma RootsExactly(r: Roots, objs: seq<Object>, o: Object)
    ensures o in RootSet(r, objs) <==>
              || (exists i :: 0 <= i < |r.cacheDir| && r.cacheDir[i].1 != []
                              && (o == r.cacheDir[i].0 || o in r.cacheDir[i].1))
              || o in r.threadContexts
              || (!r.deiniting && (o == r.rootObject || o in r.activeContexts))
              || (o in objs && o.hostRefCount != 0)
  {
    CacheHas(r.cacheDir, o);
  }

  /** A way of references leads to what is reachable. */
  lemma {:induction false} WayReaches(known: set<Object>, p: seq<Object>)
    requires p != [] && forall i :: 0 <= i < |p| - 1 ==> p[i] in known && p[i + 1] in p[i].refs
    ensures p[|p| - 1] in ReachIn(Graph(known), {p[0]}, |p| - 1)
    decreases |p|
  {
    if |p| > 1 {
      var q := p[..|p| - 1];
      assert forall i :: 0 <= i < |q| ==> q[i] == p[i];
      WayReaches(known, q);
      assert p[|p| - 1] in Graph(known)[q[|q| - 1]];
    }
  }

  /** And to whatever is reachable there is one. */
  lemma {:induction false} WayTo(known: set<Object>, h: Object, o: Object, n: nat) returns (p: seq<Object>)
    requires o in ReachIn(Graph(known), {h}, n)
    ensures p != [] && p[0] == h && p[|p| - 1] == o
    ensures forall i :: 0 <= i < |p| - 1 ==> p[i] in known && p[i + 1] in p[i].refs
  {
    if n == 0 {
      p := [h];
    } else if o in ReachIn(Graph(known), {h}, n - 1) {
      p := WayTo(known, h, o, n - 1);
    } else {
      var x :| x in ReachIn(Graph(known), {h}, n - 1) && x in Graph(known) && o in Graph(known)[x];
      var q := WayTo(known, h, x, n - 1);
      p := q + [o];
    }
  }

  /** All objects on a way from a known one are known. */
  lemma {:induction false} WayKnown(rt: Runtime, p: seq<Object>)
    requires rt.Valid() && p != [] && p[0] in rt.known && forall i :: 0 <= i < |p| - 1 ==> p[i + 1] in p[i].refs
    ensures forall i :: 0 <= i < |p| ==> p[i] in rt.known
    decreases |p|
  {
    if |p| > 1 {
      var q := p[..|p| - 1];
      assert forall i :: 0 <= i < |q| ==> q[i] == p[i];
      WayKnown(rt, q);
      assert q[|q| - 1] in rt.known && p[|p| - 1] in q[|q| - 1].refs;
    }
  }

  lemma ReachedBy(rt: Runtime, objs: seq<Object>, p: seq<Object>)
    requires rt.Valid() && p != [] && p[0] in rt.known && forall i :: 0 <= i < |p| - 1 ==> p[i + 1] in p[i].refs
    requires p[0] in RootSet(rt.roots, objs)
    ensures p[|p| - 1] in Reach(rt.known, rt.roots, objs)
  {
    WayKnown(rt, p);
    WayReaches(rt.known, p);
    ReachInMonotone(Graph(rt.known), {p[0]}, RootSet(rt.roots, objs), |p| - 1);
  }

  lemma RootKnown(rt: Runtime, o: Object)
    requires rt.Valid() && o in RootSet(rt.roots, rt.young)
    ensures o in rt.known && forall objs :: o in Objects(RootList(rt.roots)) ==> o in RootSet(rt.roots, objs)
  {
    assert o in Objects(RootList(rt.roots)) || o in Elems(rt.young);
  }

  /** In a collection, whether the full pass is due or not, every live object stays that a way of references
      leads to from an original object with instances in the cache directory, from an instance there, from the
      context of a thread, or, while the runtime is not being destroyed, from the root object or an active
      context. */
  lemma RootedStays(rt: Runtime, p: seq<Object>)
    requires rt.Valid() && p != [] && forall i :: 0 <= i < |p| - 1 ==> p[i + 1] in p[i].refs
    requires var (r, o) := (rt.roots, p[0]);
             || (exists i :: 0 <= i < |r.cacheDir| && r.cacheDir[i].1 != []
                             && (o == r.cacheDir[i].0 || o in r.cacheDir[i].1))
             || o in r.threadContexts
             || (!r.deiniting && (o == r.rootObject || o in r.activeContexts))
    ensures p[|p| - 1] in rt.young || p[|p| - 1] in rt.persistent ==> p[|p| - 1] in rt.AfterGc()
  {
    RootsExactly(rt.roots, [], p[0]);
    assert RootSet(rt.roots, []) == Objects(RootList(rt.roots));
    RootKnown(rt, p[0]);
    var merged := MergedIs(rt);
    ReachedBy(rt, rt.young, p);
    ReachedBy(rt, merged, p);
    WithoutElems(merged, Elems(merged) - Reach(rt.known, rt.roots, merged));
  }

  /** What is left, and why: of the young objects those that a way leads to from a root, or from a young
      object that the host holds; and of those and the persistent ones, if the full pass is due and comes to
      its end, those that one leads to from a root, or from any object that the host holds. */
  lemma StaysExactly(rt: Runtime, x: Object)
    requires rt.Valid() && x in rt.Heap()
    requires rt.FullGc() ==> StillCollectable(rt.known, rt.roots, rt.Merged(), rt.YoungDead())
    ensures !rt.FullGc() ==>
              (x in rt.AfterGc() <==> x in rt.persistent || exists p :: Leads(rt.roots, Elems(rt.young), p, x))
    ensures rt.FullGc() ==> (x in rt.AfterGc() <==> exists p :: Leads(rt.roots, rt.Heap(), p, x))
  {
    var merged := MergedIs(rt);
    WithoutElems(merged, Elems(merged) - Reach(rt.known, rt.roots, merged));
    LeadsExactly(rt, rt.young, Elems(rt.young), x);
    if rt.FullGc() {
      FullGcExact(rt);
      assert forall o :: o in rt.Heap() && o.hostRefCount != 0 ==> o in merged by {
        forall o | o in rt.Heap() && o.hostRefCount != 0
          ensures o in merged
        {
          HeldNeverDeleted(rt, o);
        }
      }
      LeadsExactly(rt, merged, rt.Heap(), x);
    }
  }

  /** p is a way of references to x from a root, or from an object of held that the host holds. */
  ghost predicate Leads(r: Roots, held: set<Object>, p: seq<Object>, x: Object)
    reads p, held
  {
    && p != [] && p[|p| - 1] == x && (forall i :: 0 <= i < |p| - 1 ==> p[i + 1] in p[i].refs)
    && (|| (exists i :: 0 <= i < |r.cacheDir| && r.cacheDir[i].1 != []
                        && (p[0] == r.cacheDir[i].0 || p[0] in r.cacheDir[i].1))
        || p[0] in r.threadContexts
        || (!r.deiniting && (p[0] == r.rootObject || p[0] in r.activeContexts))
        || (p[0] in held && p[0].hostRefCount != 0))
  }

  lemma LeadsExactly(rt: Runtime, objs: seq<Object>, held: set<Object>, x: Object)
    requires rt.Valid() && Elems(objs) <= rt.Heap() && x in rt.known
    requires forall o :: o in held && o.hostRefCount != 0 <==> o in objs && o.hostRefCount != 0
    ensures x in Reach(rt.known, rt.roots, objs) <==> exists p :: Leads(rt.roots, held, p, x)
  {
    var (g, s) := (Graph(rt.known), RootSet(rt.roots, objs));
    if x in Reach(rt.known, rt.roots, objs) {
      var n: nat :| x in ReachIn(g, s, n);
      var h := ReachInFromOne(g, s, x, n);
      var p := WayTo(rt.known, h, x, n);
      RootsExactly(rt.roots, objs, h);
      assert Leads(rt.roots, held, p, x);
    }
    forall p | Leads(rt.roots, held, p, x)
      ensures x in Reach(rt.known, rt.roots, objs)
    {
      RootsExactly(rt.roots, objs, p[0]);
      assert p[0] in rt.known by {
        assert p[0] in Objects(RootList(rt.roots)) || p[0] in Elems(objs);
      }
      ReachedBy(rt, objs, p);
    }
  }
}
