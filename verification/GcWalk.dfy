/** The marking work lists and the mark loop (slake/rt/gc_heapless.cc). */
module GcWalk {
  import opened SeqOps
  import opened GcObject

  class GcWalkContext {
    var walkableList: Object?
    var unwalkedList: Object?
    var walkedList: Object?
    ghost var unwalked: seq<Object>
    ghost var walkable: seq<Object>
    ghost var walked: seq<Object>
    /** The collected list back to front, and the part of it no longer on the unwalked list. */
    ghost var order: seq<Object>
    ghost var gone: set<Object>

    constructor ()
      ensures walkableList == null && unwalkedList == null && walkedList == null
      ensures unwalked == [] && walkable == [] && walked == [] && order == [] && gone == {}
    {
      walkableList, unwalkedList, walkedList := null, null, null;
      unwalked, walkable, walked, order, gone := [], [], [], [], {};
    }

    /** The pointer shape while marking: hosts are the host-referenced objects not pushed yet,
        batch the part of the detached walkable list not walked yet. */
    ghost predicate Shape(heap: set<Object>, hosts: seq<Object>, batch: seq<Object>)
      reads this, heap
    {
      && OnList(unwalked, heap, UnwalkedHome) && GcsetLinked(unwalked) && unwalkedList == At(unwalked, 0)
      && OnList(hosts, heap, HostHome) && GcsetLinked(hosts)
      && OnList(walkable, heap, WalkableHome) && GcsetChained(walkable) && walkableList == At(walkable, 0)
      && OnList(batch, heap, BatchHome) && GcsetChained(batch)
      && OnList(walked, heap, WalkedHome) && GcsetLinked(walked) && walkedList == At(walked, 0)
    }

    /** The pointers of objects on no list. */
    ghost predicate OffLists(heap: set<Object>, batch: seq<Object>)
      reads heap
    {
      && (forall o :: o in heap && o.home == LooseHome ==> o.nextSameGcset == null && o.prevSameGcset == null)
      && (forall o :: o in heap && o.home == WalkingHome ==> o.nextSameGcset == At(batch, 0) && o.prevSameGcset == null)
    }

    /** Every object of the heap is on the list of its home, which is that of its status. */
    ghost predicate Cover(heap: set<Object>, hosts: seq<Object>, batch: seq<Object>)
      reads this, heap
    {
      && (forall o :: o in heap && o.home == UnwalkedHome ==> o in unwalked)
      && (forall o :: o in heap && o.home == HostHome ==> o in hosts)
      && (forall o :: o in heap && o.home == WalkableHome ==> o in walkable)
      && (forall o :: o in heap && o.home == BatchHome ==> o in batch)
      && (forall o :: o in heap && o.home == WalkedHome ==> o in walked)
    }

    ghost predicate Statuses(heap: set<Object>)
      reads heap
    {
      forall o :: o in heap ==> o.gcStatus == StatusOf(o.home) && (o.spinlock <==> Locked(o.home))
    }

    /** The unwalked list is the collected list, back to front, without what has left it. */
    ghost predicate Ordered(heap: set<Object>)
      reads this, heap
    {
      && Distinct(order) && unwalked == Without(order, gone)
      && (forall o :: o in order ==> o in heap && o.home != LooseHome && (o in gone <==> o.home != UnwalkedHome))
    }

    ghost predicate Inv(heap: set<Object>, hosts: seq<Object>, batch: seq<Object>)
      reads this, heap
    {
      && Shape(heap, hosts, batch) && OffLists(heap, batch)
      && Cover(heap, hosts, batch) && Statuses(heap) && Ordered(heap)
    }

    method RemoveFromCurGcset(obj: Object, ghost heap: set<Object>)
      requires obj in heap && Neighbours(obj, heap)
      modifies heap`nextSameGcset, heap`prevSameGcset
      ensures Unlinked(obj, heap)
    {
      if obj.prevSameGcset != null {
        obj.prevSameGcset.nextSameGcset := obj.nextSameGcset;
      }
      if obj.nextSameGcset != null {
        obj.nextSameGcset.prevSameGcset := obj.prevSameGcset;
      }
      obj.nextSameGcset := null;
      obj.prevSameGcset := null;
    }

    method PushWalkable(obj: Object)
      modifies `unwalkedList, `walkableList, obj`nextSameGcset
      ensures unwalkedList == if old(unwalkedList) == obj then old(obj.nextSameGcset) else old(unwalkedList)
      ensures walkableList == obj && obj.nextSameGcset == old(walkableList)
    {
      if unwalkedList == obj {
        unwalkedList := obj.nextSameGcset;
      }
      obj.nextSameGcset := walkableList;
      walkableList := obj;
    }

    /** Moves an unwalked object to the walkable list; any other object stays where it is.
        Fails on a dangling pointer, which the source would dereference. */
    method PushObject(obj: Object?, ghost heap: set<Object>, ghost hosts: seq<Object>, ghost batch: seq<Object>)
      returns (ok: bool)
      requires Inv(heap, hosts, batch) && (obj != null ==> obj in heap || obj.freed)
      requires forall o :: o in heap ==> !o.freed
      requires hosts == [] || obj == hosts[0]
      modifies this, heap`gcStatus, heap`home, heap`spinlock, heap`nextSameGcset, heap`prevSameGcset
      ensures ok <==> (obj != null ==> !obj.freed)
      ensures ok ==> Inv(heap, if hosts == [] then [] else hosts[1..], batch)
      ensures walked == old(walked) && order == old(order)
      ensures ok && obj != null ==> obj in heap && obj.gcStatus != Unwalked
      ensures ok && obj != null && old(obj.gcStatus) == Unwalked ==>
                obj.home == WalkableHome && obj.gcStatus == ReadyToWalk
      ensures forall o :: o in heap && (o != obj || old(o.gcStatus) != Unwalked) ==>
                o.gcStatus == old(o.gcStatus) && o.home == old(o.home)
      ensures forall o :: o in heap && old(o.gcStatus) != Unwalked ==> o.gcStatus != Unwalked
      ensures forall o :: o in heap && o.gcStatus == Walked ==> old(o.gcStatus) == Walked
    {
      hide *;
      if obj == null {
        return true;
      }
      if obj.freed {
        return false;
      }
      match obj.gcStatus {
        case Unwalked =>
          ghost var l := FindSource(obj, heap, hosts, batch);
          Promote(obj, heap, l.push.s, l.push.k);
          InvKept(l);
          PromotedFrame(l);
        case ReadyToWalk =>
          NoHostsLeft(obj, heap, hosts, batch);
        case Walked =>
          NoHostsLeft(obj, heap, hosts, batch);
      }
      return true;
    }

    /** Where an unwalked object is to be unlinked, and what host-referenced objects then remain. */
    lemma FindSource(obj: Object, heap: set<Object>, hosts: seq<Object>, batch: seq<Object>) returns (l: ListArgs)
      requires Inv(heap, hosts, batch) && obj in heap && obj.gcStatus == Unwalked
      requires hosts == [] || obj == hosts[0]
      ensures l.push.ctx == this && l.push.obj == obj && l.push.heap == heap && l.push.k < |l.push.s|
      ensures l.hosts == hosts && l.t == batch && l.rest == if hosts == [] then [] else hosts[1..]
      ensures Pushable(l.push, hosts) && RestOk(l)
      ensures Neighbours(obj, heap) && !obj.spinlock
    {
      var k: nat := 0;
      if hosts != [] {
        assert hosts[0].home == HostHome;
        assert RemoveAt(hosts, 0) == hosts[1..];
      } else {
        assert obj.home != HostHome;
        if obj.home == UnwalkedHome {
          k :| k < |unwalked| && unwalked[k] == obj;
        }
      }
      var s := SourceList(obj, hosts);
      assert s[k] == obj;
      assert obj.nextSameGcset == At(s, k + 1);
      assert obj.prevSameGcset == At(s, k - 1);
      var rest := if hosts == [] then [] else hosts[1..];
      l := ListArgs(PushArgs(this, obj, heap, s, k), hosts, rest, batch, BatchHome);
    }

    lemma NoHostsLeft(obj: Object, heap: set<Object>, hosts: seq<Object>, batch: seq<Object>)
      requires Inv(heap, hosts, batch) && obj in heap && obj.gcStatus != Unwalked
      requires hosts == [] || obj == hosts[0]
      ensures hosts == []
    {
    }

    /** The head of the unwalked list, which is emptied if asked. */
    method GetUnwalkedList(clearList: bool) returns (p: Object?)
      modifies `unwalkedList
      ensures p == old(unwalkedList)
      ensures unwalkedList == if clearList then null else old(unwalkedList)
    {
      p := unwalkedList;
      if clearList {
        unwalkedList := null;
      }
    }

    /** Drops a deallocated object, the k-th one, from the unwalked list. */
    method UpdateUnwalkedList(obj: Object, ghost heap: set<Object>, ghost k: nat)
      requires OnUnwalked(heap) && k < |unwalked| && unwalked[k] == obj
      modifies `unwalkedList, `unwalked, heap`nextSameGcset, heap`prevSameGcset
      ensures OnUnwalked(heap) && unwalked == RemoveAt(old(unwalked), k)
      ensures forall o :: o in heap && o !in old(unwalked) ==>
                o.nextSameGcset == old(o.nextSameGcset) && o.prevSameGcset == old(o.prevSameGcset)
    {
      assert obj.nextSameGcset == At(unwalked, k + 1) && obj.prevSameGcset == At(unwalked, k - 1);
      if unwalkedList == obj {
        unwalkedList := obj.nextSameGcset;
      }
      RemoveFromCurGcset(obj, heap);
      ShrunkList(ShrinkArgs(obj, unwalked, k, heap));
      RemovedAt(unwalked, k, 0);
      unwalked := RemoveAt(unwalked, k);
    }

    /** The unwalked list, once marking is over. */
    ghost predicate OnUnwalked(heap: set<Object>)
      reads this`unwalked, this`unwalkedList, heap`nextSameGcset, heap`prevSameGcset
    {
      && Distinct(unwalked) && Elems(unwalked) <= heap && unwalkedList == At(unwalked, 0)
      && (forall i {:trigger unwalked[i].nextSameGcset} :: 0 <= i < |unwalked| ==>
            unwalked[i] in heap && unwalked[i].nextSameGcset == At(unwalked, i + 1))
      && (forall i {:trigger unwalked[i].prevSameGcset} :: 0 <= i < |unwalked| ==>
            unwalked[i] in heap && unwalked[i].prevSameGcset == At(unwalked, i - 1))
    }

    method RemoveFromWalkableList(v: Object, ghost heap: set<Object>)
      requires v in heap && Neighbours(v, heap)
      modifies `walkableList, heap`nextSameGcset, heap`prevSameGcset
      ensures walkableList == if old(walkableList) == v then old(v.nextSameGcset) else old(walkableList)
      ensures Unlinked(v, heap)
    {
      if v == walkableList {
        walkableList := v.nextSameGcset;
      }
      RemoveFromCurGcset(v, heap);
    }

    method PushUnwalked(obj: Object)
      requires unwalkedList != obj
      modifies `unwalkedList, obj`nextSameGcset, (if unwalkedList == null then {} else {unwalkedList})`prevSameGcset
      ensures unwalkedList == obj && obj.nextSameGcset == old(unwalkedList)
      ensures old(unwalkedList) != null ==> old(unwalkedList).prevSameGcset == obj
    {
      if unwalkedList != null {
        unwalkedList.prevSameGcset := obj;
      }
      obj.nextSameGcset := unwalkedList;
      unwalkedList := obj;
    }

    method PushWalked(obj: Object)
      requires walkedList != obj
      modifies `walkedList, obj`nextSameGcset, (if walkedList == null then {} else {walkedList})`prevSameGcset
      ensures walkedList == obj && obj.nextSameGcset == old(walkedList)
      ensures old(walkedList) != null ==> old(walkedList).prevSameGcset == obj
    {
      if walkedList != null {
        walkedList.prevSameGcset := obj;
      }
      obj.nextSameGcset := walkedList;
      walkedList := obj;
    }

    /** The end of walking v: from the batch to the walked list, and unlocked. */
    method FinishWalk(v: Object, ghost heap: set<Object>, ghost batch: seq<Object>)
      requires Inv(heap, [], batch) && OnlyWalking(v, heap)
      modifies `walkableList, `walkedList, `walked, heap`nextSameGcset, heap`prevSameGcset, v`home, v`spinlock
      ensures Inv(heap, [], batch) && NoneWalking(heap) && order == old(order)
      ensures forall o :: o in heap ==> o.gcStatus == old(o.gcStatus)
    {
      WalkingPointers(v, heap, batch);
      hide GcWalkContext.Inv;
      MoveToWalked(v, heap);
      FinishKeepsInv(WalkArgs(this, v, heap, batch));
    }

    lemma StatusInv(v: Object, heap: set<Object>, hosts: seq<Object>, batch: seq<Object>)
      requires Inv(heap, hosts, batch)
      ensures forall o :: o in heap ==> o.gcStatus == StatusOf(o.home)
      ensures forall i :: 0 <= i < |batch| ==> batch[i] in heap && batch[i].home == BatchHome
    {
    }

    lemma WalkingPointers(v: Object, heap: set<Object>, batch: seq<Object>)
      requires Inv(heap, [], batch) && OnlyWalking(v, heap)
      ensures v.prevSameGcset == null && walkableList != v && walkedList != v
      ensures v.nextSameGcset != null ==>
                v.nextSameGcset in heap && v.nextSameGcset.home == BatchHome && v.nextSameGcset.prevSameGcset == null
      ensures walkedList == At(walked, 0)
      ensures walkedList != null ==> walkedList in heap && walkedList.home == WalkedHome
      ensures forall o :: o in heap ==> o.gcStatus == StatusOf(o.home)
    {
      assert batch != [] ==> batch[0].prevSameGcset == null;
    }

    method MoveToWalked(v: Object, ghost heap: set<Object>)
      requires v in heap && v.prevSameGcset == null && v.home == WalkingHome && walkableList != v && walkedList != v
      requires v.nextSameGcset != null ==>
                v.nextSameGcset in heap && v.nextSameGcset.home == BatchHome && v.nextSameGcset.prevSameGcset == null
      requires walkedList == At(walked, 0)
      requires walkedList != null ==> walkedList in heap && walkedList.home == WalkedHome
      modifies `walkableList, `walkedList, `walked, heap`nextSameGcset, heap`prevSameGcset, v`home, v`spinlock
      ensures Finished(WalkArgs(this, v, heap, []))
    {
      RemoveFromWalkableList(v, heap);
      PushWalked(v);
      v.spinlock := false;
      walked, v.home := [v] + walked, WalkedHome;
    }

    /** Takes v, next in the batch, as walked: from here on it is on no list until FinishWalk. */
    method BeginWalk(v: Object, ghost heap: set<Object>, ghost batch: seq<Object>)
      requires Inv(heap, [], batch) && NoneWalking(heap) && batch != [] && v == batch[0]
      modifies v`gcStatus, v`home
      ensures Inv(heap, [], batch[1..])
      ensures v.gcStatus == Walked && OnlyWalking(v, heap) && order == old(order)
    {
      StatusInv(v, heap, [], batch);
      hide GcWalkContext.Inv;
      v.gcStatus := Walked;
      v.home := WalkingHome;
      BeginKeepsInv(WalkArgs(this, v, heap, batch));
    }

    /** Pushes everything v refers to. Fails as soon as a reference is dangling. */
    method PushRefs(v: Object, ghost heap: set<Object>, ghost batch: seq<Object>) returns (ok: bool)
      requires Inv(heap, [], batch) && OnlyWalking(v, heap)
      requires forall r :: r in v.refs && r != null ==> r in heap || r.freed
      requires forall o :: o in heap ==> !o.freed
      modifies this, heap`gcStatus, heap`home, heap`spinlock, heap`nextSameGcset, heap`prevSameGcset
      ensures ok <==> forall r :: r in v.refs && r != null ==> !r.freed
      ensures ok ==> Inv(heap, [], batch) && order == old(order) && OnlyWalking(v, heap)
      ensures ok ==> forall r :: r in v.refs && r != null ==> r in heap && r.gcStatus != Unwalked
      ensures ok ==> forall o :: o in heap && old(o.gcStatus) != Unwalked ==> o.gcStatus == old(o.gcStatus)
      ensures ok ==> forall o :: o in heap && o !in v.refs ==> o.gcStatus == old(o.gcStatus)
      ensures ok ==> forall o :: o in heap && o.gcStatus == Walked ==> old(o.gcStatus) == Walked
    {
      hide GcWalkContext.Inv;
      var refs := v.refs;
      ghost var pushed: set<Object> := {};
      for n := 0 to |refs|
        invariant Inv(heap, [], batch) && order == old(order) && OnlyWalking(v, heap)
        invariant forall j :: 0 <= j < n && refs[j] != null ==> refs[j] in pushed
        invariant pushed <= heap && forall o :: o in pushed ==> o.gcStatus != Unwalked
        invariant forall o :: o in heap && old(o.gcStatus) != Unwalked ==> o.gcStatus == old(o.gcStatus)
        invariant forall o :: o in heap && o !in refs ==> o.gcStatus == old(o.gcStatus)
        invariant forall o :: o in heap && o.gcStatus == Walked ==> old(o.gcStatus) == Walked
      {
        StatusInv(v, heap, [], batch);
        ok := PushObject(refs[n], heap, [], batch);
        if !ok {
          return;
        }
        if refs[n] != null {
          pushed := pushed + {refs[n]};
        }
      }
      return true;
    }

    /** Walks v, unless one of its references is dangling. */
    method GcWalk(v: Object, ghost heap: set<Object>, ghost batch: seq<Object>) returns (ok: bool)
      requires Inv(heap, [], batch) && NoneWalking(heap) && batch != [] && v == batch[0]
      requires forall r :: r in v.refs && r != null ==> r in heap || r.freed
      requires forall o :: o in heap ==> !o.freed
      modifies this, heap`gcStatus, heap`home, heap`spinlock, heap`nextSameGcset, heap`prevSameGcset
      ensures ok <==> forall r :: r in v.refs && r != null ==> !r.freed
      ensures ok ==> Inv(heap, [], batch[1..]) && NoneWalking(heap) && order == old(order)
      ensures ok ==> v.gcStatus == Walked
      ensures ok ==> forall r :: r in v.refs && r != null ==> r in heap && r.gcStatus != Unwalked
      ensures ok ==> forall o :: o in heap && o != v && old(o.gcStatus) != Unwalked ==> o.gcStatus == old(o.gcStatus)
      ensures ok ==> forall o :: o in heap && o != v && o !in v.refs ==> o.gcStatus == old(o.gcStatus)
      ensures ok ==> forall o :: o in heap && o != v && o.gcStatus == Walked ==> old(o.gcStatus) == Walked
    {
      hide *;
      StatusInv(v, heap, [], batch);
      BeginWalk(v, heap, batch);
      ok := PushRefs(v, heap, batch[1..]);
      if ok {
        FinishWalk(v, heap, batch[1..]);
      }
    }

    /** Detaches the whole walkable list as the next batch. */
    method GetWalkableList(ghost heap: set<Object>) returns (p: Object?, ghost batch: seq<Object>)
      requires Inv(heap, [], []) && NoneWalking(heap)
      modifies `walkableList, `walkable, heap`home
      ensures batch == old(walkable) && p == At(batch, 0) && walkable == [] && walkableList == null
      ensures Inv(heap, [], batch) && NoneWalking(heap) && order == old(order)
      ensures forall o :: o in heap ==> o.gcStatus == old(o.gcStatus)
    {
      p, batch := walkableList, walkable;
      assert p == At(batch, 0);
      hide GcWalkContext.Inv;
      walkableList, walkable := null, [];
      forall o | o in heap && o.home == WalkableHome {
        o.home := BatchHome;
      }
      DetachKeepsInv(DetachArgs(this, heap, batch));
    }

    /** The object to walk next, and the one after it. */
    lemma BatchHead(heap: set<Object>, batch: seq<Object>)
      requires Inv(heap, [], batch) && batch != []
      ensures batch[0] in heap && batch[0].gcStatus == ReadyToWalk && batch[0].nextSameGcset == At(batch, 1)
    {
    }

    /** With both walkable lists empty, nothing is ready any more. */
    lemma NothingReady(heap: set<Object>)
      requires Inv(heap, [], []) && walkable == []
      ensures forall o :: o in heap ==> o.gcStatus != ReadyToWalk
    {
    }

    /** The list a pushed object is taken off: itself alone when it is on none. */
    ghost function SourceList(obj: Object, hosts: seq<Object>): seq<Object>
      reads this, obj
    {
      match obj.home
      case UnwalkedHome => unwalked
      case HostHome => hosts
      case _ => [obj]
    }

    /** The pointer and status writes of pushing an unwalked object. */
    method Relink(obj: Object, ghost heap: set<Object>)
      requires obj in heap && Neighbours(obj, heap) && !obj.spinlock
      modifies `unwalkedList, `walkableList, obj`gcStatus, obj`spinlock, heap`nextSameGcset, heap`prevSameGcset
      ensures obj.gcStatus == ReadyToWalk && obj.spinlock
      ensures obj.nextSameGcset == old(walkableList) && obj.prevSameGcset == null && walkableList == obj
      ensures unwalkedList == if old(unwalkedList) == obj then old(obj.nextSameGcset) else old(unwalkedList)
      ensures forall o {:trigger o.nextSameGcset} :: o in heap && o != obj ==>
                o.nextSameGcset == if o == old(obj.prevSameGcset) then old(obj.nextSameGcset) else old(o.nextSameGcset)
      ensures forall o {:trigger o.prevSameGcset} :: o in heap && o != obj ==>
                o.prevSameGcset == if o == old(obj.nextSameGcset) then old(obj.prevSameGcset) else old(o.prevSameGcset)
    {
      obj.gcStatus := ReadyToWalk;
      obj.spinlock := true;
      if obj == unwalkedList {
        unwalkedList := obj.nextSameGcset;
      }
      RemoveFromCurGcset(obj, heap);
      PushWalkable(obj);
    }

    /** The same, with the ghost lists. */
    method Promote(obj: Object, ghost heap: set<Object>, ghost s: seq<Object>, ghost k: nat)
      requires obj in heap && Neighbours(obj, heap) && !obj.spinlock && k < |s|
      modifies `unwalkedList, `unwalked, `walkableList, `walkable, `gone
      modifies obj`gcStatus, obj`home, obj`spinlock, heap`nextSameGcset, heap`prevSameGcset
      ensures Promoted(PushArgs(this, obj, heap, s, k))
    {
      Relink(obj, heap);
      if obj.home == UnwalkedHome {
        unwalked := RemoveAt(s, k);
      }
      walkable, gone, obj.home := [obj] + walkable, gone + {obj}, WalkableHome;
    }
  }

  ghost predicate NoneWalking(heap: set<Object>)
    reads heap
  {
    forall o :: o in heap ==> o.home != WalkingHome
  }

  /** v is the object being walked. */
  ghost predicate OnlyWalking(v: Object, heap: set<Object>)
    reads heap
  {
    v in heap && v.home == WalkingHome && forall o :: o in heap && o.home == WalkingHome ==> o == v
  }

  ghost predicate Neighbours(obj: Object, heap: set<Object>)
    reads obj
  {
    && (obj.prevSameGcset != null ==> obj.prevSameGcset in heap && obj.prevSameGcset != obj)
    && (obj.nextSameGcset != null ==> obj.nextSameGcset in heap && obj.nextSameGcset != obj)
  }

  /** The neighbours of obj now skip it, and no other pointer changed. */
  twostate predicate Unlinked(obj: Object, heap: set<Object>)
    reads obj, heap
  {
    && obj.nextSameGcset == null && obj.prevSameGcset == null
    && (forall o {:trigger o.nextSameGcset} :: o in heap && o != obj ==>
          o.nextSameGcset == if o == old(obj.prevSameGcset) then old(obj.nextSameGcset) else old(o.nextSameGcset))
    && (forall o {:trigger o.prevSameGcset} :: o in heap && o != obj ==>
          o.prevSameGcset == if o == old(obj.nextSameGcset) then old(obj.prevSameGcset) else old(o.prevSameGcset))
  }

  datatype PushArgs = PushArgs(ctx: GcWalkContext, obj: Object, heap: set<Object>, s: seq<Object>, k: nat)

  /** The whole effect of making a.obj, the k-th object of its list a.s, walkable. */
  twostate predicate Promoted(a: PushArgs)
    reads a.ctx, a.obj, a.heap
    requires a.k < |a.s|
  {
    var (ctx, obj) := (a.ctx, a.obj);
    && obj.nextSameGcset == old(ctx.walkableList) && obj.prevSameGcset == null
    && (forall o {:trigger o.nextSameGcset} :: o in a.heap && o != obj ==>
          o.nextSameGcset == if o == old(obj.prevSameGcset) then old(obj.nextSameGcset) else old(o.nextSameGcset))
    && (forall o {:trigger o.prevSameGcset} :: o in a.heap && o != obj ==>
          o.prevSameGcset == if o == old(obj.nextSameGcset) then old(obj.prevSameGcset) else old(o.prevSameGcset))
    && ctx.unwalkedList == (if old(ctx.unwalkedList) == obj then old(obj.nextSameGcset) else old(ctx.unwalkedList))
    && ctx.walkableList == obj && ctx.walkedList == old(ctx.walkedList)
    && ctx.unwalked == (if old(obj.home) == UnwalkedHome then RemoveAt(a.s, a.k) else old(ctx.unwalked))
    && ctx.walkable == [obj] + old(ctx.walkable) && ctx.walked == old(ctx.walked)
    && ctx.order == old(ctx.order) && ctx.gone == old(ctx.gone) + {obj}
    && obj.home == WalkableHome && obj.gcStatus == ReadyToWalk && obj.spinlock
    && (forall o :: o in a.heap && o != obj ==>
          o.home == old(o.home) && o.gcStatus == old(o.gcStatus) && o.spinlock == old(o.spinlock))
  }

  ghost predicate Pushable(a: PushArgs, hosts: seq<Object>)
    reads a.ctx, a.obj, a.heap
  {
    && a.obj in a.heap && a.k < |a.s| && a.s[a.k] == a.obj
    && (a.obj.home == UnwalkedHome || a.obj.home == HostHome || a.obj.home == LooseHome)
    && a.s == a.ctx.SourceList(a.obj, hosts)
    && OnList(a.s, a.heap, a.obj.home) && GcsetLinked(a.s)
  }

  /** A push together with the host-referenced objects before and after it, and one list. */
  datatype ListArgs = ListArgs(push: PushArgs, hosts: seq<Object>, rest: seq<Object>, t: seq<Object>, h: Home)

  /** A list that the object was not on keeps its members and their pointers. */
  twostate lemma OtherListKept(l: ListArgs)
    requires old(Pushable(l.push, l.hosts)) && Promoted(l.push)
    requires old(OnList(l.t, l.push.heap, l.h)) && l.h != old(l.push.obj.home)
    ensures OnList(l.t, l.push.heap, l.h)
    ensures old(GcsetLinked(l.t)) ==> GcsetLinked(l.t)
    ensures old(GcsetChained(l.t)) ==> GcsetChained(l.t)
  {
    var a := l.push;
    assert a.s[a.k] == a.obj;
    assert old(a.obj.nextSameGcset) == At(a.s, a.k + 1);
    assert old(a.obj.prevSameGcset) == At(a.s, a.k - 1);
    forall i | 0 <= i < |l.t|
      ensures l.t[i] != a.obj && l.t[i] != old(a.obj.nextSameGcset) && l.t[i] != old(a.obj.prevSameGcset)
    {
      assert old(l.t[i].home) == l.h;
    }
  }

  /** The list that the object was on loses exactly the object. */
  twostate lemma SourceKept(l: ListArgs)
    requires old(Pushable(l.push, l.hosts)) && Promoted(l.push)
    ensures old(l.push.obj.home) != LooseHome ==>
              OnList(RemoveAt(l.push.s, l.push.k), l.push.heap, old(l.push.obj.home))
    ensures GcsetLinked(RemoveAt(l.push.s, l.push.k))
  {
    var a := l.push;
    var r := RemoveAt(a.s, a.k);
    RemoveAtElems(a.s, a.k);
    forall i: nat | i < |r|
      ensures r[i] in a.heap && r[i].home == old(a.obj.home)
      ensures r[i].nextSameGcset == At(r, i + 1) && r[i].prevSameGcset == At(r, i - 1)
    {
      StillLinked(SourceIndex(a, l.hosts, i));
    }
    hide Pushable, Promoted;
  }

  datatype SourceIndex = SourceIndex(push: PushArgs, hosts: seq<Object>, i: nat)

  /** What follows and precedes an object of the list, once a.obj is gone. */
  twostate lemma StillLinked(x: SourceIndex)
    requires old(Pushable(x.push, x.hosts)) && Promoted(x.push) && x.i < |RemoveAt(x.push.s, x.push.k)|
    ensures var (a, r) := (x.push, RemoveAt(x.push.s, x.push.k));
            && r[x.i] in a.heap && r[x.i].home == old(a.obj.home)
            && r[x.i].nextSameGcset == At(r, x.i + 1) && r[x.i].prevSameGcset == At(r, x.i - 1)
  {
    var a, i: int := x.push, x.i;
    RemoveAtElems(a.s, a.k);
    assert |RemoveAt(a.s, a.k)| == |a.s| - 1;
    StillPoints(x);
    hide Pushable, Promoted, RemoveAt;
    RemovedAt(a.s, a.k, i - 1);
    RemovedAt(a.s, a.k, i);
    RemovedAt(a.s, a.k, i + 1);
  }

  /** The pointers of an object of the list other than a.obj: they skip a.obj. */
  twostate lemma StillPoints(x: SourceIndex)
    requires old(Pushable(x.push, x.hosts)) && Promoted(x.push) && x.i + 1 < |x.push.s|
    ensures var s, k: int := x.push.s, x.push.k;
            var j := if x.i < k then x.i else x.i + 1;
            && s[j] in x.push.heap && s[j].home == old(x.push.obj.home)
            && s[j].nextSameGcset == (if j + 1 == k then At(s, k + 1) else At(s, j + 1))
            && s[j].prevSameGcset == (if j == k + 1 then At(s, k - 1) else At(s, j - 1))
  {
    var s, k: int := x.push.s, x.push.k;
    var j := if x.i < k then x.i else x.i + 1;
    assert s[j] != s[k];
    assert old(x.push.obj.nextSameGcset) == At(s, k + 1) && old(x.push.obj.prevSameGcset) == At(s, k - 1);
    assert old(s[j].nextSameGcset) == At(s, j + 1) && old(s[j].prevSameGcset) == At(s, j - 1);
    assert At(s, k - 1) == s[j] <==> j + 1 == k;
    assert At(s, k + 1) == s[j] <==> j == k + 1;
  }

  lemma RemovedAt(s: seq<Object>, k: nat, i: int)
    requires k < |s|
    ensures At(RemoveAt(s, k), i) == At(s, if i < k then i else i + 1)
  {
  }

  /** The walkable list gains the object in front. */
  twostate lemma WalkableKept(l: ListArgs)
    requires old(Pushable(l.push, l.hosts)) && Promoted(l.push)
    requires OnList(l.t, l.push.heap, WalkableHome) && GcsetChained(l.t) && l.push.obj !in l.t
    requires l.push.obj.nextSameGcset == At(l.t, 0)
    ensures OnList([l.push.obj] + l.t, l.push.heap, WalkableHome) && GcsetChained([l.push.obj] + l.t)
  {
    var r := [l.push.obj] + l.t;
    forall i | 0 < i < |r|
      ensures r[i].nextSameGcset == At(r, i + 1) && r[i].prevSameGcset == null
    {
      assert r[i] == l.t[i - 1];
      assert l.t[i - 1].nextSameGcset == At(l.t, i);
    }
  }

  twostate lemma ShapeKept(l: ListArgs)
    requires old(Pushable(l.push, l.hosts)) && old(RestOk(l)) && Promoted(l.push)
    requires old(l.push.ctx.Shape(l.push.heap, l.hosts, l.t))
    ensures l.push.ctx.Shape(l.push.heap, l.rest, l.t)
  {
    var a := l.push;
    var h := old(a.obj.home);
    OtherListKept(l.(h := BatchHome));
    OtherListKept(l.(t := old(a.ctx.walked), h := WalkedHome));
    OtherListKept(l.(t := old(a.ctx.walkable), h := WalkableHome));
    WalkableKept(l.(t := old(a.ctx.walkable)));
    if h != HostHome {
      OtherListKept(l.(t := l.hosts, h := HostHome));
    }
    if h != UnwalkedHome {
      OtherListKept(l.(t := old(a.ctx.unwalked), h := UnwalkedHome));
    }
    SourceKept(l);
  }

  /** l.rest is what remains of l.hosts. */
  ghost predicate RestOk(l: ListArgs)
    reads l.push.obj
  {
    && l.push.k < |l.push.s|
    && l.rest == if l.push.obj.home == HostHome then RemoveAt(l.push.s, l.push.k) else l.hosts
  }

  /** Pushing changes the status and the home of no other object. */
  twostate lemma PromotedFrame(l: ListArgs)
    requires l.push.k < |l.push.s| && Promoted(l.push)
    ensures l.push.obj.gcStatus == ReadyToWalk && l.push.obj.home == WalkableHome
    ensures l.push.ctx.walked == old(l.push.ctx.walked) && l.push.ctx.order == old(l.push.ctx.order)
    ensures forall o :: o in l.push.heap && o != l.push.obj ==> o.gcStatus == old(o.gcStatus) && o.home == old(o.home)
  {
  }

  twostate lemma CoverKept(l: ListArgs)
    requires old(Pushable(l.push, l.hosts)) && old(RestOk(l)) && Promoted(l.push)
    requires old(l.push.ctx.Cover(l.push.heap, l.hosts, l.t)) && old(l.push.ctx.Statuses(l.push.heap))
    ensures l.push.ctx.Cover(l.push.heap, l.rest, l.t)
    ensures l.push.ctx.Statuses(l.push.heap)
  {
    RemoveAtElems(l.push.s, l.push.k);
  }

  twostate lemma OffListsKept(l: ListArgs)
    requires old(Pushable(l.push, l.hosts)) && Promoted(l.push)
    requires old(l.push.ctx.OffLists(l.push.heap, l.t))
    ensures l.push.ctx.OffLists(l.push.heap, l.t)
  {
    var a := l.push;
    assert a.s[a.k] == a.obj;
    assert old(a.obj.nextSameGcset) == At(a.s, a.k + 1);
    assert old(a.obj.prevSameGcset) == At(a.s, a.k - 1);
  }

  twostate lemma OrderedKept(l: ListArgs)
    requires old(Pushable(l.push, l.hosts)) && Promoted(l.push)
    requires old(l.push.ctx.Ordered(l.push.heap))
    ensures l.push.ctx.Ordered(l.push.heap)
  {
    var a := l.push;
    var order, gone := old(a.ctx.order), old(a.ctx.gone);
    if old(a.obj.home) == UnwalkedHome {
      WithoutStep(order, gone, a.k);
    } else {
      WithoutGone(order, gone, a.obj);
    }
  }

  twostate lemma InvKept(l: ListArgs)
    requires old(Pushable(l.push, l.hosts)) && old(RestOk(l)) && Promoted(l.push)
    requires old(l.push.ctx.Inv(l.push.heap, l.hosts, l.t))
    ensures l.push.ctx.Inv(l.push.heap, l.rest, l.t)
  {
    ShapeKept(l);
    CoverKept(l);
    OffListsKept(l);
    OrderedKept(l);
  }

  datatype WalkArgs = WalkArgs(ctx: GcWalkContext, v: Object, heap: set<Object>, batch: seq<Object>)

  /** The whole effect of moving w.v to the front of the walked list. */
  twostate predicate Finished(w: WalkArgs)
    reads w.ctx, w.v, w.heap
  {
    var (ctx, v) := (w.ctx, w.v);
    && PushedFront(FrontArgs(v, w.heap, old(ctx.walked), WalkedHome))
    && v.gcStatus == old(v.gcStatus) && !v.spinlock
    && ctx.walkedList == v && ctx.walked == [v] + old(ctx.walked)
    && ctx.unwalkedList == old(ctx.unwalkedList) && ctx.walkableList == old(ctx.walkableList)
    && ctx.unwalked == old(ctx.unwalked) && ctx.walkable == old(ctx.walkable)
    && ctx.order == old(ctx.order) && ctx.gone == old(ctx.gone)
  }

  twostate lemma BeginKeepsInv(w: WalkArgs)
    requires w.batch != [] && w.v == w.batch[0]
    requires old(w.ctx.Inv(w.heap, [], w.batch)) && w.v in w.heap
    requires old(NoneWalking(w.heap))
    requires w.v.gcStatus == Walked && w.v.home == WalkingHome
    requires OnlyStatusMoved(w)
    ensures w.ctx.Inv(w.heap, [], w.batch[1..])
  {
    assert old(w.v.home) == BatchHome;
    BeginKeepsShape(w);
    BeginKeepsRest(w);
  }

  /** Nothing changed but the status and the home of w.v. */
  twostate predicate OnlyStatusMoved(w: WalkArgs)
    reads w.ctx, w.v, w.heap
  {
    && unchanged(w.ctx)
    && (forall o :: o in w.heap && o != w.v ==> unchanged(o))
    && w.v.nextSameGcset == old(w.v.nextSameGcset) && w.v.prevSameGcset == old(w.v.prevSameGcset)
    && w.v.spinlock == old(w.v.spinlock)
  }

  twostate lemma BeginKeepsShape(w: WalkArgs)
    requires w.batch != [] && w.v == w.batch[0] && w.v in w.heap && old(w.v.home) == BatchHome
    requires old(w.ctx.Shape(w.heap, [], w.batch)) && w.v.home == WalkingHome && OnlyStatusMoved(w)
    ensures w.ctx.Shape(w.heap, [], w.batch[1..])
    ensures w.v.nextSameGcset == At(w.batch[1..], 0) && w.v.prevSameGcset == null
  {
    var (b, r) := (w.batch, w.batch[1..]);
    forall i | 0 <= i < |r|
      ensures r[i] in w.heap && r[i] != w.v && r[i].home == BatchHome
      ensures r[i].nextSameGcset == At(r, i + 1) && r[i].prevSameGcset == null
    {
      assert r[i] == b[i + 1] && old(b[i + 1].home) == BatchHome;
      assert old(b[i + 1].nextSameGcset) == At(b, i + 2) && old(b[i + 1].prevSameGcset) == null;
    }
    assert old(b[0].nextSameGcset) == At(b, 1) && old(b[0].prevSameGcset) == null;
    BeginKeepsLists(w);
  }

  twostate lemma BeginKeepsLists(w: WalkArgs)
    requires w.v in w.heap && old(w.v.home) == BatchHome
    requires old(w.ctx.Shape(w.heap, [], w.batch)) && OnlyStatusMoved(w)
    ensures OnList(w.ctx.unwalked, w.heap, UnwalkedHome) && GcsetLinked(w.ctx.unwalked)
    ensures OnList(w.ctx.walkable, w.heap, WalkableHome) && GcsetChained(w.ctx.walkable)
    ensures OnList(w.ctx.walked, w.heap, WalkedHome) && GcsetLinked(w.ctx.walked)
  {
  }

  twostate lemma BeginKeepsRest(w: WalkArgs)
    requires w.batch != [] && w.v == w.batch[0] && w.v in w.heap && old(w.v.home) == BatchHome
    requires old(w.ctx.Cover(w.heap, [], w.batch)) && old(w.ctx.Statuses(w.heap))
    requires old(w.ctx.OffLists(w.heap, w.batch)) && old(w.ctx.Ordered(w.heap))
    requires w.v.gcStatus == Walked && w.v.home == WalkingHome && OnlyStatusMoved(w)
    requires w.v.nextSameGcset == At(w.batch[1..], 0) && w.v.prevSameGcset == null
    requires old(NoneWalking(w.heap))
    ensures w.ctx.Cover(w.heap, [], w.batch[1..]) && w.ctx.Statuses(w.heap)
    ensures w.ctx.OffLists(w.heap, w.batch[1..]) && w.ctx.Ordered(w.heap)
  {
    assert w.batch == [w.batch[0]] + w.batch[1..];
  }

  datatype DetachArgs = DetachArgs(ctx: GcWalkContext, heap: set<Object>, batch: seq<Object>)

  /** The walkable list became the batch, and nothing else changed. */
  twostate predicate Detached(d: DetachArgs)
    reads d.ctx, d.heap
  {
    && d.batch == old(d.ctx.walkable) && d.ctx.walkable == [] && d.ctx.walkableList == null
    && d.ctx.unwalkedList == old(d.ctx.unwalkedList) && d.ctx.walkedList == old(d.ctx.walkedList)
    && d.ctx.unwalked == old(d.ctx.unwalked) && d.ctx.walked == old(d.ctx.walked)
    && d.ctx.order == old(d.ctx.order) && d.ctx.gone == old(d.ctx.gone)
    && (forall o :: o in d.heap ==>
          && o.home == (if old(o.home) == WalkableHome then BatchHome else old(o.home))
          && o.gcStatus == old(o.gcStatus) && o.spinlock == old(o.spinlock)
          && o.nextSameGcset == old(o.nextSameGcset) && o.prevSameGcset == old(o.prevSameGcset))
  }

  twostate lemma DetachKeepsInv(d: DetachArgs)
    requires old(d.ctx.Inv(d.heap, [], [])) && old(NoneWalking(d.heap)) && Detached(d)
    ensures d.ctx.Inv(d.heap, [], d.batch)
  {
    DetachKeepsShape(d);
    DetachKeepsRest(d);
  }

  twostate lemma DetachKeepsShape(d: DetachArgs)
    requires old(d.ctx.Shape(d.heap, [], [])) && Detached(d)
    ensures d.ctx.Shape(d.heap, [], d.batch)
  {
  }

  twostate lemma DetachKeepsRest(d: DetachArgs)
    requires old(d.ctx.Cover(d.heap, [], [])) && old(d.ctx.Statuses(d.heap)) && old(d.ctx.Ordered(d.heap))
    requires old(d.ctx.OffLists(d.heap, [])) && old(NoneWalking(d.heap)) && Detached(d)
    ensures d.ctx.Cover(d.heap, [], d.batch) && d.ctx.Statuses(d.heap) && d.ctx.Ordered(d.heap)
    ensures d.ctx.OffLists(d.heap, d.batch)
  {
  }

  twostate lemma FinishKeepsShape(w: WalkArgs)
    requires w.v in w.heap && old(w.v.home) == WalkingHome && Finished(w)
    requires old(w.ctx.Shape(w.heap, [], w.batch))
    ensures w.ctx.Shape(w.heap, [], w.batch)
  {
    var ctx := w.ctx;
    var f := FrontArgs(w.v, w.heap, old(ctx.walked), WalkedHome);
    assert w.heap + {w.v} == w.heap;
    FrontList(f);
    BesideList(BesideArgs(f, w.batch, BatchHome));
    BesideList(BesideArgs(f, ctx.walkable, WalkableHome));
    BesideList(BesideArgs(f, ctx.unwalked, UnwalkedHome));
  }

  twostate lemma FinishKeepsRest(w: WalkArgs)
    requires w.v in w.heap && old(w.v.home) == WalkingHome && Finished(w)
    requires old(w.ctx.Cover(w.heap, [], w.batch)) && old(w.ctx.Statuses(w.heap))
    requires old(w.ctx.OffLists(w.heap, w.batch)) && old(w.ctx.Ordered(w.heap))
    requires old(OnList(w.ctx.walked, w.heap, WalkedHome))
    ensures w.ctx.Cover(w.heap, [], w.batch) && w.ctx.Statuses(w.heap)
    ensures w.ctx.OffLists(w.heap, w.batch) && w.ctx.Ordered(w.heap)
  {
  }

  twostate lemma FinishKeepsInv(w: WalkArgs)
    requires w.v in w.heap && old(w.v.home) == WalkingHome && Finished(w)
    requires old(w.ctx.Inv(w.heap, [], w.batch))
    ensures w.ctx.Inv(w.heap, [], w.batch)
  {
    FinishKeepsShape(w);
    FinishKeepsRest(w);
  }

  datatype EnlistArgs = EnlistArgs(ctx: GcWalkContext, obj: Object, heap: set<Object>, hosts: seq<Object>)

  /** The whole effect of putting the next object of the collected list on the unwalked list,
      or on the list of host-referenced objects. */
  twostate predicate Enlisted(e: EnlistArgs)
    reads e.ctx, e.obj, e.heap
  {
    var (ctx, obj) := (e.ctx, e.obj);
    var hosted := obj.hostRefCount != 0;
    && PushedFront(if hosted then FrontArgs(obj, e.heap, e.hosts, HostHome)
                   else FrontArgs(obj, e.heap, old(ctx.unwalked), UnwalkedHome))
    && obj.gcStatus == Unwalked && !obj.spinlock
    && ctx.walkableList == old(ctx.walkableList) && ctx.walkedList == old(ctx.walkedList)
    && ctx.unwalkedList == (if hosted then old(ctx.unwalkedList) else obj)
    && ctx.unwalked == (if hosted then old(ctx.unwalked) else [obj] + old(ctx.unwalked))
    && ctx.walkable == old(ctx.walkable) && ctx.walked == old(ctx.walked)
    && ctx.order == [obj] + old(ctx.order)
    && ctx.gone == old(ctx.gone) + if hosted then {obj} else {}
  }

  ghost function HostsWith(e: EnlistArgs): seq<Object>
    reads e.obj
  {
    if e.obj.hostRefCount != 0 then [e.obj] + e.hosts else e.hosts
  }

  twostate lemma EnlistKeepsShape(e: EnlistArgs)
    requires old(e.ctx.Shape(e.heap, e.hosts, [])) && e.obj !in e.heap && Enlisted(e)
    ensures e.ctx.Shape(e.heap + {e.obj}, HostsWith(e), [])
  {
    var f := if e.obj.hostRefCount != 0 then FrontArgs(e.obj, e.heap, e.hosts, HostHome)
             else FrontArgs(e.obj, e.heap, old(e.ctx.unwalked), UnwalkedHome);
    FrontList(f);
    BesideList(BesideArgs(f, e.ctx.walkable, WalkableHome));
    BesideList(BesideArgs(f, e.ctx.walked, WalkedHome));
    if e.obj.hostRefCount != 0 {
      BesideList(BesideArgs(f, old(e.ctx.unwalked), UnwalkedHome));
    } else {
      BesideList(BesideArgs(f, e.hosts, HostHome));
    }
  }

  twostate lemma EnlistKeepsCover(e: EnlistArgs)
    requires old(e.ctx.Cover(e.heap, e.hosts, [])) && e.obj !in e.heap && Enlisted(e)
    ensures e.ctx.Cover(e.heap + {e.obj}, HostsWith(e), [])
  {
  }

  twostate lemma EnlistKeepsRest(e: EnlistArgs)
    requires old(e.ctx.Statuses(e.heap)) && old(e.ctx.OffLists(e.heap, []))
    requires old(OnList(e.hosts, e.heap, HostHome)) && old(OnList(e.ctx.unwalked, e.heap, UnwalkedHome))
    requires e.obj !in e.heap && Enlisted(e)
    ensures e.ctx.Statuses(e.heap + {e.obj}) && e.ctx.OffLists(e.heap + {e.obj}, [])
  {
  }

  twostate lemma EnlistKeepsOrder(e: EnlistArgs)
    requires old(e.ctx.Ordered(e.heap)) && old(e.ctx.gone) <= e.heap && e.obj !in e.heap && Enlisted(e)
    ensures e.ctx.Ordered(e.heap + {e.obj}) && e.ctx.gone <= e.heap + {e.obj}
  {
    var (order, gone) := (old(e.ctx.order), old(e.ctx.gone));
    assert ([e.obj] + order)[1..] == order;
    assert forall o :: o in e.ctx.order <==> o == e.obj || o in order;
    assert gone + {} == gone;
    if e.obj.hostRefCount != 0 {
      WithoutSame(order, gone, e.obj);
    }
  }

  twostate lemma EnlistKeepsInv(e: EnlistArgs)
    requires old(e.ctx.Inv(e.heap, e.hosts, [])) && old(e.ctx.gone) <= e.heap && e.obj !in e.heap && Enlisted(e)
    ensures e.ctx.Inv(e.heap + {e.obj}, HostsWith(e), []) && e.ctx.gone <= e.heap + {e.obj}
  {
    EnlistKeepsShape(e);
    EnlistKeepsCover(e);
    EnlistKeepsRest(e);
    EnlistKeepsOrder(e);
  }

  datatype ShrinkArgs = ShrinkArgs(obj: Object, s: seq<Object>, k: nat, heap: set<Object>)

  /** Unlinking the k-th object of a list leaves the list of the others. */
  twostate lemma ShrunkList(a: ShrinkArgs)
    requires a.k < |a.s| && a.s[a.k] == a.obj && Distinct(a.s) && Elems(a.s) <= a.heap
    requires old(GcsetLinked(a.s)) && Unlinked(a.obj, a.heap)
    ensures GcsetLinked(RemoveAt(a.s, a.k)) && Distinct(RemoveAt(a.s, a.k)) && Elems(RemoveAt(a.s, a.k)) <= a.heap
  {
    var (s, r) := (a.s, RemoveAt(a.s, a.k));
    var k: nat := a.k;
    RemoveAtElems(s, k);
    assert old(s[k].nextSameGcset) == At(s, k + 1) && old(s[k].prevSameGcset) == At(s, k - 1);
    forall i | 0 <= i < |r|
      ensures r[i].nextSameGcset == At(r, i + 1) && r[i].prevSameGcset == At(r, i - 1)
    {
      var j := if i < k then i else i + 1;
      assert r[i] == s[j] && s[j] != s[k] && s[j] in s;
      assert old(s[j].nextSameGcset) == At(s, j + 1) && old(s[j].prevSameGcset) == At(s, j - 1);
      RemovedAt(s, k, i - 1);
      RemovedAt(s, k, i + 1);
      assert At(s, k - 1) == s[j] <==> j + 1 == k;
      assert At(s, k + 1) == s[j] <==> j == k + 1;
    }
  }
}
