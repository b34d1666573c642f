/** The two sweeps over the unreachable objects, and the hand-over of the others. */
module GcSweep {
  import opened SeqOps
  import opened GcObject
  import opened GcWalk
  import opened GcMark
  import opened GcTypeDefs
  import opened TypeSearch
  import TypeDefs

  /** The byte counter of a generation's allocator (GenerationalPoolAlloc). */
  class PoolAlloc {
    var szAllocated: nat

    constructor ()
      ensures szAllocated == 0
    {
      szAllocated := 0;
    }

    method Alloc(size: nat)
      modifies this`szAllocated
      ensures szAllocated == old(szAllocated) + size
    {
      szAllocated := szAllocated + size;
    }

    method Release(size: nat)
      requires size <= szAllocated
      modifies this`szAllocated
      ensures szAllocated == old(szAllocated) - size
    {
      szAllocated := szAllocated - size;
    }
  }

  ghost function SumSizes(s: seq<Object>): nat {
    if s == [] then 0 else s[0].size + SumSizes(s[1..])
  }

  lemma {:induction false} SumRemoved(s: seq<Object>, k: nat)
    requires k < |s|
    ensures SumSizes(s) == s[k].size + SumSizes(RemoveAt(s, k))
  {
    if k == 0 {
      assert RemoveAt(s, 0) == s[1..];
    } else {
      SumRemoved(s[1..], k - 1);
      assert RemoveAt(s, k) == [s[0]] + RemoveAt(s[1..], k - 1);
    }
  }

  lemma {:induction false} SumConcat(s: seq<Object>, t: seq<Object>)
    ensures SumSizes(s + t) == SumSizes(s) + SumSizes(t)
  {
    if s == [] {
      assert s + t == t;
    } else {
      SumConcat(s[1..], t);
      assert (s + t)[1..] == s[1..] + t;
    }
  }

  datatype GenArgs = GenArgs(obj: Object, s: seq<Object>, k: nat, heap: set<Object>)

  /** The neighbours of g.obj on its generation's list skip it, and no other pointer moved. */
  twostate predicate GenUnlinked(g: GenArgs)
    reads g.obj, g.heap
  {
    && (forall o {:trigger o.nextSameGen} :: o in g.heap ==>
          o.nextSameGen == if o == old(g.obj.prevSameGen) then old(g.obj.nextSameGen) else old(o.nextSameGen))
    && (forall o {:trigger o.prevSameGen} :: o in g.heap ==>
          o.prevSameGen == if o == old(g.obj.nextSameGen) then old(g.obj.prevSameGen) else old(o.prevSameGen))
  }

  twostate lemma GenListKept(g: GenArgs)
    requires g.k < |g.s| && g.s[g.k] == g.obj && Distinct(g.s) && Elems(g.s) <= g.heap
    requires old(GenLinked(g.s)) && GenUnlinked(g)
    ensures GenLinked(RemoveAt(g.s, g.k))
  {
    var (s, r) := (g.s, RemoveAt(g.s, g.k));
    var k: nat := g.k;
    assert old(s[k].nextSameGen) == At(s, k + 1) && old(s[k].prevSameGen) == At(s, k - 1);
    forall i | 0 <= i < |r|
      ensures r[i].nextSameGen == At(r, i + 1) && r[i].prevSameGen == At(r, i - 1)
    {
      var j := if i < k then i else i + 1;
      assert r[i] == s[j] && s[j] != s[k] && s[j] in s;
      assert old(s[j].nextSameGen) == At(s, j + 1) && old(s[j].prevSameGen) == At(s, j - 1);
      RemovedAt(s, k, i - 1);
      RemovedAt(s, k, i + 1);
      assert At(s, k - 1) == s[j] <==> j + 1 == k;
      assert At(s, k + 1) == s[j] <==> j == k + 1;
    }
  }

  /** Takes an object off its generation's list. */
  method UnlinkSameGen(i: Object, objectList: Object?, endObject: Object?, ghost heap: set<Object>,
                       ghost s: seq<Object>, ghost k: nat)
    returns (newList: Object?, newEnd: Object?)
    requires k < |s| && s[k] == i && Distinct(s) && Elems(s) <= heap && GenLinked(s)
    requires objectList == At(s, 0) && endObject == At(s, |s| - 1)
    modifies heap`nextSameGen, heap`prevSameGen
    ensures GenLinked(RemoveAt(s, k))
    ensures newList == At(RemoveAt(s, k), 0) && newEnd == At(RemoveAt(s, k), |s| - 2)
    ensures forall o :: o in heap && o !in s ==>
              o.nextSameGen == old(o.nextSameGen) && o.prevSameGen == old(o.prevSameGen)
  {
    assert i in s && i.nextSameGen == At(s, k + 1) && i.prevSameGen == At(s, k - 1);
    newList, newEnd := objectList, endObject;
    if i == objectList {
      newList := i.nextSameGen;
      assert i.prevSameGen == null;
    }
    if endObject == i {
      if i.prevSameGen != null {
        newEnd := i.prevSameGen;
      } else {
        newEnd := null;
      }
      assert i.nextSameGen == null;
    }
    if i.prevSameGen != null {
      i.prevSameGen.nextSameGen := i.nextSameGen;
    }
    if i.nextSameGen != null {
      i.nextSameGen.prevSameGen := i.prevSameGen;
    }
    GenListKept(GenArgs(i, s, k, heap));
    RemovedAt(s, k, 0);
    RemovedAt(s, k, |s| - 2);
  }

  method Dealloc(i: Object, alloc: PoolAlloc)
    requires !i.freed && i.size <= alloc.szAllocated
    modifies i`freed, alloc`szAllocated
    ensures i.freed && alloc.szAllocated == old(alloc.szAllocated) - i.size
  {
    alloc.Release(i.size);
    i.freed := true;
  }

  /** Registered type definitions are live, sit at their own key, and are made of live objects
      that are not type definitions themselves; these include all that the comparator looks at. */
  ghost predicate TableOk(table: TypeTable, heap: set<Object>)
    reads heap`refs
  {
    forall key :: key in table ==>
      var t := table[key];
      && t in heap && t.typeKey == key && t.kind == TypeDef && MadeOfOthers(t, heap)
  }

  ghost predicate MadeOfOthers(t: Object, heap: set<Object>)
    requires t in heap
    reads heap`refs
  {
    && (forall r :: r in t.refs && r != null ==> r in heap && r.kind != TypeDef)
    && (forall r :: r in ReadWith(t) ==> r in t.refs)
  }

  /** Every type definition of the table and of the collected list is sound. */
  ghost predicate TypesOk(table: TypeTable, objs: seq<Object>, heap: set<Object>)
    reads heap`refs
  {
    && TableOk(table, heap) && PairwiseApart(table.Keys)
    && forall o :: o in objs && o.kind == TypeDef ==> o in heap && MadeOfOthers(o, heap)
  }

  ghost function TypeDefsOf(s: seq<Object>): set<Object> {
    set o | o in s && o.kind == TypeDef
  }

  ghost function KeysOf(s: set<Object>): set<TypeDefs.Reading> {
    set o | o in s :: o.typeKey
  }

  /** The first n of the objects to delete, in turn: each type definition can be searched for in what is
      left of the table by then. */
  ghost predicate SearchesDefined(table: TypeTable, todo: seq<Object>, n: nat)
    requires n <= |todo|
  {
    forall i :: 0 <= i < n && todo[i].kind == TypeDef ==>
      Placeable(table - KeysOf(TypeDefsOf(todo[..i])), todo[i].typeKey)
  }

  lemma SearchNext(table: TypeTable, todo: seq<Object>, n: nat)
    requires n < |todo|
    ensures SearchesDefined(table, todo, n + 1) <==>
      SearchesDefined(table, todo, n)
      && (todo[n].kind == TypeDef ==> Placeable(table - KeysOf(TypeDefsOf(todo[..n])), todo[n].typeKey))
    ensures !SearchesDefined(table, todo, n + 1) ==> !SearchesDefined(table, todo, |todo|)
  {
    hide Placeable;
  }

  /** The collected list and its allocator after the objects of dead have been deleted. */
  ghost predicate Swept(objs: seq<Object>, dead: set<Object>, list: Object?, end: Object?, alloc: PoolAlloc,
                        heap: set<Object>)
    reads alloc, heap`freed, heap`nextSameGen, heap`prevSameGen
  {
    var s := Without(objs, dead);
    && Elems(s) <= heap && Elems(objs) <= heap && dead <= Elems(objs) && Distinct(objs)
    && GenLinked(s) && list == At(s, 0) && end == At(s, |s| - 1)
    && alloc.szAllocated == SumSizes(s)
    && (forall o :: o in heap ==> (o.freed <==> o in dead))
  }

  /** One iteration of a sweep: i leaves its generation's list and is deallocated. */
  method SweepOne(i: Object, list: Object?, end: Object?, alloc: PoolAlloc,
                  ghost objs: seq<Object>, ghost dead: set<Object>, ghost heap: set<Object>)
    returns (newList: Object?, newEnd: Object?)
    requires Swept(objs, dead, list, end, alloc, heap) && i in objs && i !in dead
    modifies heap`nextSameGen, heap`prevSameGen, i`freed, alloc`szAllocated
    ensures Swept(objs, dead + {i}, newList, newEnd, alloc, heap)
    ensures forall o :: o in heap && o !in objs ==>
              o.nextSameGen == old(o.nextSameGen) && o.prevSameGen == old(o.prevSameGen)
  {
    hide *;
    ghost var s, k, r := FindLive(objs, dead, i, list, end, alloc, heap);
    newList, newEnd := UnlinkSameGen(i, list, end, heap, s, k);
    Dealloc(i, alloc);
    SweptStep(objs, dead, s, k, r, newList, newEnd, alloc, heap);
  }

  /** The same, leaving the unwalked list as well before the deallocation. */
  method SweepOneUpdating(ctx: GcWalkContext, i: Object, list: Object?, end: Object?, alloc: PoolAlloc,
                          ghost objs: seq<Object>, ghost dead: set<Object>, ghost heap: set<Object>, ghost at: nat)
    returns (newList: Object?, newEnd: Object?)
    requires Swept(objs, dead, list, end, alloc, heap) && i in objs && i !in dead
    requires ctx.OnUnwalked(heap) && at < |ctx.unwalked| && ctx.unwalked[at] == i
    modifies heap`nextSameGen, heap`prevSameGen, i`freed, alloc`szAllocated
    modifies ctx`unwalkedList, ctx`unwalked, heap`nextSameGcset, heap`prevSameGcset
    ensures Swept(objs, dead + {i}, newList, newEnd, alloc, heap)
    ensures ctx.OnUnwalked(heap) && ctx.unwalked == RemoveAt(old(ctx.unwalked), at)
    ensures forall o :: o in heap && o !in objs ==>
              o.nextSameGen == old(o.nextSameGen) && o.prevSameGen == old(o.prevSameGen)
    ensures forall o :: o in heap && o !in old(ctx.unwalked) ==>
              o.nextSameGcset == old(o.nextSameGcset) && o.prevSameGcset == old(o.prevSameGcset)
  {
    hide *;
    ghost var s, k, r := FindLive(objs, dead, i, list, end, alloc, heap);
    newList, newEnd := UnlinkSameGen(i, list, end, heap, s, k);
    ctx.UpdateUnwalkedList(i, heap, at);
    Dealloc(i, alloc);
    SweptStep(objs, dead, s, k, r, newList, newEnd, alloc, heap);
  }

  /** Where the next object to delete sits on what is left of its list. */
  lemma FindLive(objs: seq<Object>, dead: set<Object>, i: Object, list: Object?, end: Object?, alloc: PoolAlloc,
                 heap: set<Object>)
    returns (s: seq<Object>, k: nat, r: seq<Object>)
    requires Swept(objs, dead, list, end, alloc, heap) && i in objs && i !in dead
    ensures s == Without(objs, dead) && k < |s| && s[k] == i && Distinct(s) && Elems(s) <= heap && GenLinked(s)
    ensures list == At(s, 0) && end == At(s, |s| - 1) && i in heap && !i.freed
    ensures Distinct(objs) && Elems(objs) <= heap && dead <= Elems(objs)
    ensures r == RemoveAt(s, k) && alloc.szAllocated == i.size + SumSizes(r)
    ensures forall o :: o in heap ==> (o.freed <==> o in dead)
    ensures forall o :: o in s ==> o in objs
  {
    hide GenLinked, RemoveAt, Without, SumSizes;
    s := Without(objs, dead);
    WithoutElems(objs, dead);
    WithoutDistinct(objs, dead);
    k :| k < |s| && s[k] == i;
    SumRemoved(s, k);
    r := RemoveAt(s, k);
    assert i in Elems(objs);
    assert forall o :: o in s ==> o in Elems(Without(objs, dead));
  }

  lemma SweptStep(objs: seq<Object>, dead: set<Object>, s: seq<Object>, k: nat, r: seq<Object>, list: Object?,
                  end: Object?, alloc: PoolAlloc, heap: set<Object>)
    requires s == Without(objs, dead) && k < |s| && Distinct(objs) && Elems(objs) <= heap && dead <= Elems(objs)
    requires r == RemoveAt(s, k) && GenLinked(r) && list == At(r, 0) && end == At(r, |s| - 2)
    requires alloc.szAllocated == SumSizes(r)
    requires forall o :: o in heap ==> (o.freed <==> o in dead || o == s[k])
    ensures Swept(objs, dead + {s[k]}, list, end, alloc, heap)
  {
    WithoutStep(objs, dead, k);
    WithoutElems(objs, dead);
    WithoutElems(objs, dead + {s[k]});
    assert s[k] in s;
  }

  predicate IsTypeDefObject(o: Object?) {
    o != null && o.kind == TypeDef
  }

  /** The first sweep: deletes the unreachable type definitions and drops them from the table.
      It drops them from the unwalked list as well only if the head of that list stays. It fails on a
      search that the comparator does not decide. */
  method SweepTypeDefs(ctx: GcWalkContext, objectList: Object?, endObject: Object?, typeDefs: TypeTable,
                       alloc: PoolAlloc, ghost objs: seq<Object>, ghost heap: set<Object>)
    returns (ok: bool, list: Object?, end: Object?, table: TypeTable, deleted: nat)
    requires ctx.OnUnwalked(heap) && Elems(ctx.unwalked) <= Elems(objs)
    requires Swept(objs, {}, objectList, endObject, alloc, heap)
    requires TypesOk(typeDefs, objs, heap)
    modifies heap`nextSameGen, heap`prevSameGen, heap`freed, alloc`szAllocated
    modifies ctx`unwalkedList, ctx`unwalked, heap`nextSameGcset, heap`prevSameGcset
    ensures ok <==> SearchesDefined(typeDefs, old(ctx.unwalked), |old(ctx.unwalked)|)
    ensures ok ==>
      var dead := TypeDefsOf(old(ctx.unwalked));
      && Swept(objs, dead, list, end, alloc, heap)
      && table == typeDefs - KeysOf(dead) && deleted == |dead|
      && (!IsTypeDefObject(old(ctx.unwalkedList)) ==>
            ctx.OnUnwalked(heap) && ctx.unwalked == Without(old(ctx.unwalked), dead))
    ensures ok && IsTypeDefObject(old(ctx.unwalkedList)) ==> ctx.unwalkedList == old(ctx.unwalkedList)
    ensures forall o :: o in heap && o !in objs ==>
              o.nextSameGen == old(o.nextSameGen) && o.prevSameGen == old(o.prevSameGen)
    ensures forall o :: o in heap && o !in old(ctx.unwalked) ==>
              o.nextSameGcset == old(o.nextSameGcset) && o.prevSameGcset == old(o.prevSameGcset)
  {
    hide *;
    list, end, table, deleted := objectList, endObject, typeDefs, 0;
    var i := ctx.GetUnwalkedList(false);
    var update := !IsTypeDefObject(i);
    ghost var todo, n: nat := ctx.unwalked, 0;
    NothingSweptYet(ctx, todo, typeDefs, heap);
    while i != null
      invariant n <= |todo| && i == At(todo, n) && Elems(todo) <= Elems(objs) && Distinct(todo)
      invariant ctx.OnUnwalked(heap) && ctx.unwalked == if update then Rest(todo, n) else todo
      invariant !update ==> ctx.unwalkedList == old(ctx.unwalkedList)
      invariant Swept(objs, TypeDefsOf(todo[..n]), list, end, alloc, heap) && SearchesDefined(typeDefs, todo, n)
      invariant table == typeDefs - KeysOf(TypeDefsOf(todo[..n])) && deleted == |TypeDefsOf(todo[..n])|
      invariant forall o :: o in heap && o !in objs ==>
                o.nextSameGen == old(o.nextSameGen) && o.prevSameGen == old(o.prevSameGen)
      invariant forall o :: o in heap && o !in todo ==>
                  o.nextSameGcset == old(o.nextSameGcset) && o.prevSameGcset == old(o.prevSameGcset)
      decreases |todo| - n
    {
      RestElems(todo, n);
      CursorOn(ctx, todo, n, heap, objs, if update then Rest(todo, n) else todo);
      SearchNext(typeDefs, todo, n);
      var next := i.nextSameGcset;
      if IsTypeDefObject(i) {
        TypeDefTaken(todo, n, typeDefs);
        StillComparable(typeDefs, todo, n, objs, list, end, alloc, heap);
        var keys, answer := table.Keys, Nothing;
        answer, table := UnregisterTypeDef(table, i, heap);
        if answer != Rightly(keys, i.typeKey) {
          // The source goes on, with another entry taken out or undefined behaviour.
          return false, list, end, table, deleted;
        }
        if update {
          list, end := SweepOneUpdating(ctx, i, list, end, alloc, objs, TypeDefsOf(todo[..n]), heap,
              KeptBefore(todo, n));
        } else {
          list, end := SweepOne(i, list, end, alloc, objs, TypeDefsOf(todo[..n]), heap);
        }
        deleted := deleted + 1;
      } else {
        OtherKept(todo, n);
      }
      i, n := next, n + 1;
    }
    AllSwept(todo, n);
    ok := true;
  }

  /** The unwalked list when the first n objects have been looked at. */
  ghost function Rest(todo: seq<Object>, n: nat): seq<Object>
    requires n <= |todo|
  {
    Without(todo[..n], TypeDefsOf(todo[..n])) + todo[n..]
  }

  ghost function KeptBefore(todo: seq<Object>, n: nat): nat
    requires n <= |todo|
  {
    |Without(todo[..n], TypeDefsOf(todo[..n]))|
  }

  lemma NothingSweptYet(ctx: GcWalkContext, todo: seq<Object>, table: TypeTable, heap: set<Object>)
    requires ctx.OnUnwalked(heap) && todo == ctx.unwalked
    ensures ctx.unwalkedList == At(todo, 0) && Distinct(todo)
    ensures TypeDefsOf(todo[..0]) == {} && Rest(todo, 0) == todo && table - KeysOf({}) == table
    ensures SearchesDefined(table, todo, 0)
  {
  }

  lemma AllSwept(todo: seq<Object>, n: nat)
    requires n <= |todo| && At(todo, n) == null
    ensures n == |todo| && todo[..n] == todo && Rest(todo, n) == Without(todo, TypeDefsOf(todo))
  {
    assert todo[..n] == todo;
  }

  lemma RestElems(todo: seq<Object>, n: nat)
    requires n <= |todo|
    ensures forall o :: o in Rest(todo, n) ==> o in todo
  {
    WithoutElems(todo[..n], TypeDefsOf(todo[..n]));
    var kept := Without(todo[..n], TypeDefsOf(todo[..n]));
    assert forall o :: o in kept ==> o in Elems(kept);
    assert forall o :: o in todo[..n] || o in todo[n..] ==> o in todo;
  }

  lemma CursorOn(ctx: GcWalkContext, todo: seq<Object>, n: nat, heap: set<Object>, objs: seq<Object>, w: seq<Object>)
    requires ctx.OnUnwalked(heap) && n <= |todo| && At(todo, n) != null
    requires ctx.unwalked == w && (w == Rest(todo, n) || w == todo) && Elems(todo) <= Elems(objs)
    ensures n < |todo| && todo[n] == At(todo, n) && todo[n].nextSameGcset == At(todo, n + 1)
    ensures todo[n] in objs && todo[n] in heap
    ensures IsTypeDefObject(todo[n]) <==> todo[n].kind == TypeDef
    ensures w == Rest(todo, n) ==> KeptBefore(todo, n) < |w| && w[KeptBefore(todo, n)] == todo[n]
    ensures w == Rest(todo, n) ==>
              RemoveAt(w, KeptBefore(todo, n)) == Without(todo[..n], TypeDefsOf(todo[..n])) + todo[n + 1..]
  {
    assert todo[n] in Elems(todo);
    if w == todo {
      assert todo[n].nextSameGcset == At(todo, n + 1);
    }
    if w == Rest(todo, n) {
      var k := KeptBefore(todo, n);
      assert w[k] == todo[n] && w[k].nextSameGcset == At(w, k + 1);
    }
  }

  /** The next object is a type definition and goes. */
  lemma TypeDefTaken(todo: seq<Object>, n: nat, table: TypeTable)
    requires n < |todo| && Distinct(todo) && todo[n].kind == TypeDef
    ensures var dead, x := TypeDefsOf(todo[..n]), todo[n];
            && x !in dead && TypeDefsOf(todo[..n + 1]) == dead + {x} && |dead + {x}| == |dead| + 1
            && table - KeysOf(dead + {x}) == table - KeysOf(dead) - {x.typeKey}
            && Rest(todo, n + 1) == Without(todo[..n], dead) + todo[n + 1..]
  {
    var dead, x := TypeDefsOf(todo[..n]), todo[n];
    CursorStep(todo, n);
    assert x !in todo[..n];
    assert TypeDefsOf(todo[..n + 1]) == dead + {x};
    KeysStep(table, dead, x);
    WithoutConcat(todo[..n], [x], dead + {x});
    WithoutSame(todo[..n], dead, x);
    assert Without([x], dead + {x}) == [];
    assert Without(todo[..n + 1], dead + {x}) == Without(todo[..n], dead);
  }

  lemma KeysStep(table: TypeTable, dead: set<Object>, x: Object)
    ensures table - KeysOf(dead + {x}) == table - KeysOf(dead) - {x.typeKey}
  {
    assert KeysOf(dead + {x}) == KeysOf(dead) + {x.typeKey};
  }

  /** The next object is no type definition and stays for the second sweep. */
  lemma OtherKept(todo: seq<Object>, n: nat)
    requires n < |todo| && todo[n].kind != TypeDef
    ensures TypeDefsOf(todo[..n + 1]) == TypeDefsOf(todo[..n]) && Rest(todo, n + 1) == Rest(todo, n)
  {
    var dead, x := TypeDefsOf(todo[..n]), todo[n];
    CursorStep(todo, n);
    assert TypeDefsOf(todo[..n + 1]) == dead;
    WithoutConcat(todo[..n], [x], dead);
    assert todo[n..] == [x] + todo[n + 1..];
  }

  /** The comparator reads no freed object: deleted type definitions have left the table, and
      nothing else has been deleted yet. */
  lemma StillComparable(table: TypeTable, todo: seq<Object>, n: nat, objs: seq<Object>, list: Object?, end: Object?,
                        alloc: PoolAlloc, heap: set<Object>)
    requires TypesOk(table, objs, heap) && n < |todo| && Elems(todo) <= Elems(objs)
    requires todo[n].kind == TypeDef && todo[n] !in TypeDefsOf(todo[..n])
    requires Swept(objs, TypeDefsOf(todo[..n]), list, end, alloc, heap)
    ensures Comparable(table - KeysOf(TypeDefsOf(todo[..n])), todo[n], heap)
  {
    hide TypeDefs.Apart;
    var dead := TypeDefsOf(todo[..n]);
    var left := table - KeysOf(dead);
    assert left.Keys <= table.Keys;
    assert todo[n] in Elems(todo) && todo[n] in objs;
    LegibleStill(todo[n], dead, heap);
    forall key | key in left
      ensures Legible(left[key], heap) && left[key].typeKey == key
    {
      assert table[key] !in dead;
      LegibleStill(table[key], dead, heap);
    }
  }

  lemma LegibleStill(t: Object, dead: set<Object>, heap: set<Object>)
    requires t in heap && t.kind == TypeDef && MadeOfOthers(t, heap) && t !in dead
    requires forall o :: o in heap ==> (o.freed <==> o in dead)
    requires forall o :: o in dead ==> o.kind == TypeDef
    ensures Legible(t, heap)
  {
    hide ReadBy;
  }

  /** The second sweep: deletes all that is left on the unwalked list. */
  method SweepAll(i0: Object?, objectList: Object?, endObject: Object?, alloc: PoolAlloc,
                  ghost todo: seq<Object>, ghost objs: seq<Object>, ghost dead: set<Object>, ghost heap: set<Object>)
    returns (list: Object?, end: Object?, deleted: nat)
    requires i0 == At(todo, 0) && GcsetLinked(todo) && Distinct(todo) && Elems(todo) <= Elems(objs)
    requires Elems(todo) !! dead
    requires Swept(objs, dead, objectList, endObject, alloc, heap)
    modifies heap`nextSameGen, heap`prevSameGen, heap`freed, alloc`szAllocated
    ensures Swept(objs, dead + Elems(todo), list, end, alloc, heap) && deleted == |Elems(todo)|
    ensures forall o :: o in heap && o !in objs ==>
              o.nextSameGen == old(o.nextSameGen) && o.prevSameGen == old(o.prevSameGen)
  {
    hide *;
    list, end, deleted := objectList, endObject, 0;
    var i := i0;
    ghost var n: nat := 0;
    NoneTaken(todo, dead);
    while i != null
      invariant n <= |todo| && i == At(todo, n) && GcsetLinked(todo)
      invariant Swept(objs, dead + Elems(todo[..n]), list, end, alloc, heap) && deleted == |Elems(todo[..n])|
      invariant forall o :: o in heap && o !in objs ==>
                o.nextSameGen == old(o.nextSameGen) && o.prevSameGen == old(o.prevSameGen)
      decreases |todo| - n
    {
      TakeNext(todo, n, objs, dead, list, end, alloc, heap);
      var next := i.nextSameGcset;
      list, end := SweepOne(i, list, end, alloc, objs, dead + Elems(todo[..n]), heap);
      deleted := deleted + 1;
      i, n := next, n + 1;
    }
    AllTaken(todo, n);
  }

  lemma NoneTaken(todo: seq<Object>, dead: set<Object>)
    ensures dead + Elems(todo[..0]) == dead && |Elems(todo[..0])| == 0
  {
  }

  lemma AllTaken(todo: seq<Object>, n: nat)
    requires n <= |todo| && At(todo, n) == null
    ensures todo[..n] == todo
  {
  }

  lemma TakeNext(todo: seq<Object>, n: nat, objs: seq<Object>, dead: set<Object>, list: Object?, end: Object?,
                 alloc: PoolAlloc, heap: set<Object>)
    requires n <= |todo| && At(todo, n) != null && GcsetLinked(todo) && Distinct(todo)
    requires Elems(todo) <= Elems(objs) && Elems(todo) !! dead
    requires Swept(objs, dead + Elems(todo[..n]), list, end, alloc, heap)
    ensures n < |todo| && At(todo, n) == todo[n] && todo[n].nextSameGcset == At(todo, n + 1)
    ensures todo[n] in objs && todo[n] in heap && todo[n] !in dead + Elems(todo[..n])
    ensures dead + Elems(todo[..n + 1]) == dead + Elems(todo[..n]) + {todo[n]}
    ensures |Elems(todo[..n + 1])| == |Elems(todo[..n])| + 1
  {
    CursorStep(todo, n);
    assert todo[n] in Elems(todo) && todo[n] in Elems(objs);
    assert todo[n] !in todo[..n];
  }

  /** Takes the first walked object off its list and gives it to the new generation. */
  method HandOverOne(ctx: GcWalkContext, i: Object, newGeneration: Generation, ghost heap: set<Object>,
                     ghost s: seq<Object>, ghost r: seq<Object>)
    requires s != [] && i == s[0] && r == s[1..] && GcsetLinked(s) && Distinct(s) && Elems(s) <= heap && !i.spinlock
    modifies heap`nextSameGcset, heap`prevSameGcset, i`generation, i`gcStatus, i`home
    ensures GcsetLinked(r) && Idle({i}) && i.generation == newGeneration
    ensures OnlyTheseMoved(s, heap)
  {
    assert i in Elems(s) && i.nextSameGcset == At(s, 1) && i.prevSameGcset == At(s, -1);
    assert At(s, 1) != null ==> s[1] in Elems(s) && s[1] != s[0];
    assert RemoveAt(s, 0) == r;
    ctx.RemoveFromCurGcset(i, heap);
    ShrunkList(ShrinkArgs(i, s, 0, heap));
    i.generation := newGeneration;
    i.gcStatus := Unwalked;
    i.home := LooseHome;
  }

  /** Nothing the collector writes changed outside of s. */
  twostate predicate OnlyTheseMoved(s: seq<Object>, heap: set<Object>)
    reads heap
  {
    forall o :: o in heap && o !in s ==>
      && o.nextSameGcset == old(o.nextSameGcset) && o.prevSameGcset == old(o.prevSameGcset)
      && o.generation == old(o.generation) && o.gcStatus == old(o.gcStatus) && o.home == old(o.home)
  }

  /** Gives every walked object to the new generation and takes it off the walked list. */
  method HandOver(ctx: GcWalkContext, newGeneration: Generation, ghost heap: set<Object>, ghost walked: seq<Object>)
    requires ctx.walkedList == At(walked, 0) && GcsetLinked(walked) && Distinct(walked) && Elems(walked) <= heap
    requires forall o :: o in walked ==> !o.spinlock
    modifies heap`nextSameGcset, heap`prevSameGcset, heap`generation, heap`gcStatus, heap`home
    ensures HandedOver(walked, newGeneration) && OnlyTheseMoved(walked, heap)
  {
    HandedNone(walked, newGeneration);
    hide GcsetLinked, Distinct, HandedOver, Idle;
    var i := ctx.walkedList;
    ghost var n: nat := 0;
    ghost var rest := walked;
    while i != null
      invariant n <= |walked| && i == At(walked, n) && rest == walked[n..] && GcsetLinked(rest)
      invariant HandedOver(walked[..n], newGeneration) && OnlyTheseMoved(walked, heap)
      decreases |walked| - n
    {
      ghost var next := walked[n + 1..];
      RestStep(walked, n, heap);
      var j := i.nextSameGcset;
      HandOverOne(ctx, i, newGeneration, heap, rest, next);
      HandedMore(walked, n, newGeneration);
      i, n, rest := j, n + 1, next;
    }
    assert walked[..n] == walked;
  }

  /** s is idle and belongs to the generation. */
  ghost predicate HandedOver(s: seq<Object>, g: Generation)
    reads s
  {
    Idle(Elems(s)) && forall o :: o in s ==> o.generation == g
  }

  lemma HandedNone(walked: seq<Object>, g: Generation)
    ensures HandedOver(walked[..0], g)
  {
  }

  lemma HandedMore(walked: seq<Object>, n: nat, g: Generation)
    requires n < |walked| && HandedOver(walked[..n], g) && Idle({walked[n]}) && walked[n].generation == g
    ensures HandedOver(walked[..n + 1], g)
  {
    CursorStep(walked, n);
    var s := walked[..n];
    forall o | o in walked[..n + 1]
      ensures o in s || o == walked[n]
    {
    }
    assert forall o :: o in s ==> o in Elems(s);
  }

  lemma RestStep(walked: seq<Object>, n: nat, heap: set<Object>)
    requires n < |walked| && Distinct(walked) && Elems(walked) <= heap && GcsetLinked(walked[n..])
    ensures var r := walked[n..];
            && r != [] && r[0] == walked[n] && r[1..] == walked[n + 1..] && Distinct(r) && Elems(r) <= heap
            && walked[n].nextSameGcset == At(walked, n + 1) && walked[n] in walked && walked[n] in heap
    ensures forall o :: o in walked[n..] ==> o in walked && o !in walked[..n]
    ensures walked[..n + 1] == walked[..n] + [walked[n]]
  {
    var r := walked[n..];
    assert r[0].nextSameGcset == At(r, 1);
    assert walked[n] in Elems(walked);
  }
}
