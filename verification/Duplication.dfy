/** The deep copy of an object with its members (slake/obj/object.cc, slake/obj/module.cc). Objects live in
    a heap of records, so that a copy can share an object with its source, or another copy, by reference. */
module Duplication {
  import opened Wrappers

  datatype Kind = Class | Interface | Struct | Fn

  /** payload: what the copy constructors copy by value. */
  datatype Object = Object(kind: Kind, name: string, payload: nat, members: map<string, nat>, parent: Option<nat>)

  type Heap = map<nat, Object>

  /** An overloading of the function fn. body: what its copy constructors copy by value. */
  datatype Overloading = Overloading(signature: nat, body: nat, fn: nat)

  /** All overloadings, and those of each function by signature. */
  datatype Overloads = Overloads(objects: map<nat, Overloading>, tables: map<nat, map<nat, nat>>)

  datatype Image = Image(objects: Heap, overloads: Overloads)

  datatype Task = ModuleMember(mod: nat, src: nat)

  /** Members are objects of the heap, stored under their own names; functions have none. */
  ghost predicate WfHeap(h: Heap) {
    forall r :: r in h ==> WfObject(h, h[r])
  }

  ghost predicate WfObject(h: Heap, o: Object) {
    && (o.kind == Fn ==> o.members == map[])
    && forall n :: n in o.members ==> o.members[n] in h && h[o.members[n]].name == n
  }

  /** The members below r are at most d levels deep: no object contains itself. */
  ghost predicate Deep(h: Heap, r: nat, d: nat)
    decreases d
  {
    r in h && d > 0 && forall n :: n in h[r].members ==> Deep(h, h[r].members[n], d - 1)
  }

  /** Functions have overloadings, stored under their own signatures. */
  ghost predicate WfOverloads(h: Heap, v: Overloads) {
    forall r :: r in h && h[r].kind == Fn ==> r in v.tables && WfTable(v, v.tables[r])
  }

  ghost predicate WfTable(v: Overloads, table: map<nat, nat>) {
    forall k :: k in table ==> table[k] in v.objects && v.objects[table[k]].signature == k
  }

  /** The function c has overloadings equal to those of s, but they are new and point back to c. */
  ghost predicate FnCopied(a: Overloads, s: nat, b: Overloads, c: nat) {
    && s in a.tables && c in b.tables && b.tables[c].Keys == a.tables[s].Keys
    && forall k :: k in a.tables[s] ==>
         && a.tables[s][k] in a.objects && b.tables[c][k] in b.objects && b.tables[c][k] !in a.objects
         && b.objects[b.tables[c][k]] == a.objects[a.tables[s][k]].(fn := c)
  }

  /** c is a copy of s, down to d levels: equal in all but references, its overloadings copies of those of s
      that belong to c, its members copies of the members of s under the same names, each with c as its
      parent. */
  ghost predicate Isomorphic(src: Image, s: nat, h: Image, c: nat, d: nat)
    decreases d
  {
    && s in src.objects && c in h.objects && d > 0
    && var (x, y) := (src.objects[s], h.objects[c]);
       && y.kind == x.kind && y.name == x.name && y.payload == x.payload && y.members.Keys == x.members.Keys
       && (x.kind == Fn ==> FnCopied(src.overloads, s, h.overloads, c))
       && forall n :: n in x.members ==>
            Isomorphic(src, x.members[n], h, y.members[n], d - 1) && h.objects[y.members[n]].parent == Some(c)
  }

  // ----- The state of a duplication

  /** The member t copies, by name. */
  ghost predicate Asked(src: Heap, origin: map<nat, nat>, t: Task) {
    && t.mod in origin && origin[t.mod] in src && t.src in src
    && src[t.src].name in src[origin[t.mod]].members && src[origin[t.mod]].members[src[t.src].name] == t.src
  }

  ghost predicate Distinct(tasks: seq<Task>) {
    forall i, j :: 0 <= i < j < |tasks| ==> tasks[i] != tasks[j]
  }

  /** c is a copy of origin[c] as far as it has got. */
  ghost predicate CopyOf(src: Heap, h: Heap, origin: map<nat, nat>, root: nat, c: nat)
    requires c in origin
  {
    && c in h && c !in src && origin[c] in src
    && h[c].kind == src[origin[c]].kind && h[c].name == src[origin[c]].name && h[c].payload == src[origin[c]].payload
    && (forall n :: n in h[c].members ==>
          && n in src[origin[c]].members && h[c].members[n] in origin
          && origin[h[c].members[n]] == src[origin[c]].members[n]
          && h[c].members[n] in h && h[h[c].members[n]].parent == Some(c))
    && (c != root ==>
          && h[c].parent.Some? && h[c].parent.value in origin && h[c].parent.value in h
          && h[c].name in h[h[c].parent.value].members && h[h[c].parent.value].members[h[c].name] == c)
  }

  /** Every member is either copied or asked for by one task. */
  ghost predicate Covered(src: Heap, h: Heap, origin: map<nat, nat>, tasks: seq<Task>, c: nat)
    requires c in origin && origin[c] in src && c in h
  {
    forall n :: n in src[origin[c]].members ==> (n in h[c].members <==>
        ModuleMember(c, src[origin[c]].members[n]) !in tasks)
  }

  ghost predicate Copying(src: Heap, h: Heap, origin: map<nat, nat>, root: nat, tasks: seq<Task>) {
    && (forall r :: r in src ==> r in h && h[r] == src[r])
    && root in origin && root in h && h[root].parent == None
    && (forall c :: c in origin ==> CopyOf(src, h, origin, root, c))
    && (forall c :: c in origin ==> Covered(src, h, origin, tasks, c))
    && (forall i :: 0 <= i < |tasks| ==> Asked(src, origin, tasks[i]))
    && Distinct(tasks)
  }

  ghost predicate IsMember(o: Object, m: nat) {
    exists n :: n in o.members && o.members[n] == m
  }

  /** One task for each member. */
  ghost predicate MemberTasks(o: Object, c: nat, news: seq<Task>) {
    && Distinct(news)
    && (forall i :: 0 <= i < |news| ==> news[i].mod == c && IsMember(o, news[i].src))
    && (forall n :: n in o.members ==> ModuleMember(c, o.members[n]) in news)
  }

  /** Everything that was there is as it was. */
  ghost predicate Kept(a: Overloads, b: Overloads) {
    && (forall r :: r in a.objects ==> r in b.objects && b.objects[r] == a.objects[r])
    && (forall r :: r in a.tables ==> r in b.tables && b.tables[r] == a.tables[r])
  }

  /** Every function copied so far has its overloadings. */
  ghost predicate FnsCopied(src: Heap, a: Overloads, b: Overloads, origin: map<nat, nat>) {
    && Kept(a, b)
    && forall c :: c in origin && origin[c] in src && src[origin[c]].kind == Fn ==> FnCopied(a, origin[c], b, c)
  }

  /** What is left when there are no tasks is a whole copy. */
  lemma {:induction false} CopiedWhole(src: Image, h: Image, origin: map<nat, nat>, root: nat, c: nat, d: nat)
    requires Copying(src.objects, h.objects, origin, root, []) && c in origin && Deep(src.objects, origin[c], d)
    requires FnsCopied(src.objects, src.overloads, h.overloads, origin)
    ensures Isomorphic(src, origin[c], h, c, d)
    decreases d
  {
    var (x, y) := (src.objects, h.objects);
    PartCopied(src, h, origin, root, c);
    hide FnCopied, Kept, FnsCopied, Copying;
    forall n | n in x[origin[c]].members
      ensures n in y[c].members && Isomorphic(src, x[origin[c]].members[n], h, y[c].members[n], d - 1)
      ensures y[y[c].members[n]].parent == Some(c)
    {
      CopiedWhole(src, h, origin, root, y[c].members[n], d - 1);
    }
  }

  lemma PartCopied(src: Image, h: Image, origin: map<nat, nat>, root: nat, c: nat)
    requires Copying(src.objects, h.objects, origin, root, []) && c in origin
    requires FnsCopied(src.objects, src.overloads, h.overloads, origin)
    ensures origin[c] in src.objects && c in h.objects
    ensures var (x, y) := (src.objects[origin[c]], h.objects[c]);
            && y.kind == x.kind && y.name == x.name && y.payload == x.payload && y.members.Keys == x.members.Keys
            && (x.kind == Fn ==> FnCopied(src.overloads, origin[c], h.overloads, c))
            && forall n :: n in x.members ==>
                 && n in y.members && y.members[n] in origin && origin[y.members[n]] == x.members[n]
                 && y.members[n] in h.objects && h.objects[y.members[n]].parent == Some(c)
  {
    hide FnCopied, Kept;
    var (x, y) := (src.objects, h.objects);
    assert CopyOf(x, y, origin, root, c) && Covered(x, y, origin, [], c);
    hide Copying;
    assert forall n :: n in x[origin[c]].members <==> n in y[c].members;
  }

  lemma KeptTrans(a: Overloads, b: Overloads, c: Overloads)
    requires Kept(a, b) && Kept(b, c)
    ensures Kept(a, c)
  {
  }

  lemma FnStays(a: Overloads, s: nat, b: Overloads, b': Overloads, c: nat)
    requires FnCopied(a, s, b, c) && Kept(b, b')
    ensures FnCopied(a, s, b', c)
  {
  }

  lemma FnSince(a: Overloads, s: nat, b: Overloads, b': Overloads, c: nat)
    requires Kept(a, b) && s in a.tables && WfTable(a, a.tables[s]) && FnCopied(b, s, b', c)
    ensures FnCopied(a, s, b', c)
  {
  }

  /** One more copy, with its overloadings if it is a function. */
  lemma FnsKeep(src: Heap, a: Overloads, b: Overloads, b': Overloads, origin: map<nat, nat>, s: nat, c: nat)
    requires WfOverloads(src, a) && FnsCopied(src, a, b, origin) && s in src && Kept(b, b')
    requires src[s].kind == Fn ==> FnCopied(b, s, b', c)
    ensures FnsCopied(src, a, b', origin[c := s])
  {
    KeptTrans(a, b, b');
    var o := origin[c := s];
    forall x | x in o && o[x] in src && src[o[x]].kind == Fn
      ensures FnCopied(a, o[x], b', x)
    {
      if x == c {
        FnSince(a, s, b, b', c);
      } else {
        FnStays(a, origin[x], b, b', x);
      }
    }
  }

  /** The heap afterwards: a new copy c of its source, added to its module. */
  ghost function AfterTask(src: Heap, h: Heap, t: Task, c: nat): Heap
    requires t.src in src && t.mod in h
  {
    var o := src[t.src];
    var copy := Object(o.kind, o.name, o.payload, map[], Some(t.mod));
    h[c := copy][t.mod := h[t.mod].(members := h[t.mod].members[o.name := c])]
  }

  lemma NewCopy(src: Heap, h: Heap, origin: map<nat, nat>, root: nat, tasks: seq<Task>, c: nat, news: seq<Task>)
    requires WfHeap(src) && Copying(src, h, origin, root, tasks) && tasks != [] && c !in h
    requires tasks[0].src in src && tasks[0].mod in h && MemberTasks(src[tasks[0].src], c, news)
    ensures var (g, o) := (AfterTask(src, h, tasks[0], c), origin[c := tasks[0].src]);
            CopyOf(src, g, o, root, c) && Covered(src, g, o, tasks[1..] + news, c)
  {
    assert Asked(src, origin, tasks[0]) && CopyOf(src, h, origin, root, tasks[0].mod);
    forall n | n in src[tasks[0].src].members
      ensures ModuleMember(c, src[tasks[0].src].members[n]) in tasks[1..] + news
    {
    }
  }

  lemma CopyFacts(src: Heap, h: Heap, origin: map<nat, nat>, root: nat, tasks: seq<Task>, x: nat)
    requires Copying(src, h, origin, root, tasks) && x in origin
    ensures x in h && x !in src && CopyOf(src, h, origin, root, x) && Covered(src, h, origin, tasks, x)
  {
  }

  lemma NameIsNew(src: Heap, h: Heap, origin: map<nat, nat>, root: nat, tasks: seq<Task>)
    requires Copying(src, h, origin, root, tasks) && tasks != []
    ensures Asked(src, origin, tasks[0]) && tasks[0].mod in h && src[tasks[0].src].name !in h[tasks[0].mod].members
  {
    var t := tasks[0];
    assert Asked(src, origin, t);
    CopyFacts(src, h, origin, root, tasks, t.mod);
    assert ModuleMember(t.mod, src[origin[t.mod]].members[src[t.src].name]) == t;
  }

  lemma OldCopy(src: Heap, h: Heap, origin: map<nat, nat>, root: nat, t: Task, c: nat, x: nat)
    requires Asked(src, origin, t) && t.mod in h && src[t.src].name !in h[t.mod].members && c !in h && c !in origin
    requires x in origin && CopyOf(src, h, origin, root, x)
    ensures CopyOf(src, AfterTask(src, h, t, c), origin[c := t.src], root, x)
  {
  }

  lemma OldCovered(src: Heap, h: Heap, origin: map<nat, nat>, root: nat, tasks: seq<Task>, c: nat, news: seq<Task>,
                   x: nat)
    requires WfHeap(src) && Copying(src, h, origin, root, tasks) && tasks != [] && c !in h
    requires tasks[0].src in src && tasks[0].mod in h && MemberTasks(src[tasks[0].src], c, news) && x in origin
    requires origin[x] in src && x in AfterTask(src, h, tasks[0], c)
    ensures Covered(src, AfterTask(src, h, tasks[0], c), origin[c := tasks[0].src], tasks[1..] + news, x)
  {
    var (t, g) := (tasks[0], AfterTask(src, h, tasks[0], c));
    assert Asked(src, origin, t) && CopyOf(src, h, origin, root, x) && Covered(src, h, origin, tasks, x);
    forall n | n in src[origin[x]].members
      ensures n in g[x].members <==> ModuleMember(x, src[origin[x]].members[n]) !in tasks[1..] + news
    {
      var u := ModuleMember(x, src[origin[x]].members[n]);
      Remaining(tasks, news, u, c);
      assert WfObject(src, src[origin[x]]);
      if x == t.mod && n == src[t.src].name {
        assert u == t;
      } else {
        assert n in g[x].members <==> n in h[x].members;
      }
    }
  }

  /** A task for another object than c is left exactly when it was there and is not the first. */
  lemma Remaining(tasks: seq<Task>, news: seq<Task>, u: Task, c: nat)
    requires tasks != [] && Distinct(tasks) && u.mod != c && forall i :: 0 <= i < |news| ==> news[i].mod == c
    ensures u in tasks[1..] + news <==> u in tasks && u != tasks[0]
  {
    if u in tasks && u != tasks[0] {
      var i :| 0 <= i < |tasks| && tasks[i] == u;
      assert tasks[1..][i - 1] == u;
    }
    if u in tasks[1..] {
      var i :| 0 <= i < |tasks[1..]| && tasks[1..][i] == u;
      assert tasks[i + 1] == u;
    }
  }

  lemma AllDistinct(src: Heap, h: Heap, origin: map<nat, nat>, root: nat, tasks: seq<Task>, c: nat, news: seq<Task>)
    requires Copying(src, h, origin, root, tasks) && tasks != [] && c !in h
    requires tasks[0].src in src && MemberTasks(src[tasks[0].src], c, news)
    ensures Distinct(tasks[1..] + news)
  {
    var left := tasks[1..] + news;
    forall i, j | 0 <= i < j < |left|
      ensures left[i] != left[j]
    {
      if j < |tasks| - 1 {
        assert left[i] == tasks[i + 1] && left[j] == tasks[j + 1];
      } else if i < |tasks| - 1 {
        assert left[i] == tasks[i + 1] && Asked(src, origin, tasks[i + 1]) && left[j] == news[j - (|tasks| - 1)];
        assert CopyOf(src, h, origin, root, left[i].mod);
      } else {
        assert left[i] == news[i - (|tasks| - 1)] && left[j] == news[j - (|tasks| - 1)];
      }
    }
  }

  /** One task, carried out. */
  lemma TaskKeeps(src: Heap, h: Heap, origin: map<nat, nat>, root: nat, tasks: seq<Task>, c: nat, news: seq<Task>)
    requires WfHeap(src) && Copying(src, h, origin, root, tasks) && tasks != [] && c !in h
    requires tasks[0].src in src && tasks[0].mod in h && MemberTasks(src[tasks[0].src], c, news)
    ensures Copying(src, AfterTask(src, h, tasks[0], c), origin[c := tasks[0].src], root, tasks[1..] + news)
  {
    var t := tasks[0];
    var (g, o, left) := (AfterTask(src, h, t, c), origin[c := t.src], tasks[1..] + news);
    NameIsNew(src, h, origin, root, tasks);
    NewCopy(src, h, origin, root, tasks, c, news);
    SourceKept(src, h, origin, root, tasks, c);
    AllAsked(src, h, origin, root, tasks, c, news);
    AllDistinct(src, h, origin, root, tasks, c, news);
    hide Distinct, MemberTasks, Asked;
    forall x | x in o
      ensures CopyOf(src, g, o, root, x) && Covered(src, g, o, left, x)
    {
      if x != c {
        CopyFacts(src, h, origin, root, tasks, x);
        OldCopy(src, h, origin, root, t, c, x);
        OldCovered(src, h, origin, root, tasks, c, news, x);
      }
    }
  }

  lemma SourceKept(src: Heap, h: Heap, origin: map<nat, nat>, root: nat, tasks: seq<Task>, c: nat)
    requires Copying(src, h, origin, root, tasks) && tasks != [] && c !in h
    requires tasks[0].src in src && tasks[0].mod in h && tasks[0].mod in origin
    ensures root in h && root != c && AfterTask(src, h, tasks[0], c)[root].parent == None
    ensures c !in origin
    ensures forall r :: r in src ==> r in AfterTask(src, h, tasks[0], c) && AfterTask(src, h, tasks[0], c)[r] == src[r]
  {
    hide CopyOf, Covered, Asked, Distinct;
    CopyFacts(src, h, origin, root, tasks, tasks[0].mod);
    NotCopied(src, h, origin, root, tasks, c);
    hide Copying;
    var (g, t) := (AfterTask(src, h, tasks[0], c), tasks[0]);
    assert forall r :: r in h && r != t.mod ==> g[r] == h[r];
    assert g[t.mod].parent == h[t.mod].parent;
    SourceIn(src, h, origin, root, tasks);
  }

  lemma SourceIn(src: Heap, h: Heap, origin: map<nat, nat>, root: nat, tasks: seq<Task>)
    requires Copying(src, h, origin, root, tasks)
    ensures root in h && h[root].parent == None && forall r :: r in src ==> r in h && h[r] == src[r]
  {
  }

  lemma NotCopied(src: Heap, h: Heap, origin: map<nat, nat>, root: nat, tasks: seq<Task>, c: nat)
    requires Copying(src, h, origin, root, tasks) && c !in h
    ensures c !in origin
  {
    if c in origin {
      CopyFacts(src, h, origin, root, tasks, c);
    }
  }

  lemma AllAsked(src: Heap, h: Heap, origin: map<nat, nat>, root: nat, tasks: seq<Task>, c: nat, news: seq<Task>)
    requires WfHeap(src) && Copying(src, h, origin, root, tasks) && tasks != [] && c !in origin
    requires tasks[0].src in src && MemberTasks(src[tasks[0].src], c, news)
    ensures forall i :: 0 <= i < |tasks[1..] + news| ==> Asked(src, origin[c := tasks[0].src], (tasks[1..] + news)[i])
  {
    var left := tasks[1..] + news;
    forall i | 0 <= i < |left|
      ensures Asked(src, origin[c := tasks[0].src], left[i])
    {
      if i < |tasks| - 1 {
        assert left[i] == tasks[i + 1] && Asked(src, origin, tasks[i + 1]);
      } else {
        var new' := news[i - (|tasks| - 1)];
        assert left[i] == new';
        var n :| n in src[tasks[0].src].members && src[tasks[0].src].members[n] == new'.src;
        assert WfObject(src, src[tasks[0].src]);
      }
    }
  }

  // ----- The duplicator

  lemma Started(h: Heap, s: nat, c: nat, news: seq<Task>)
    requires WfHeap(h) && s in h && c !in h && MemberTasks(h[s], c, news)
    ensures Copying(h, h[c := Object(h[s].kind, h[s].name, h[s].payload, map[], None)], map[c := s], c, news)
  {
    assert WfObject(h, h[s]);
  }

  lemma TasksDeep(src: Heap, s: nat, c: nat, d: nat, news: seq<Task>)
    requires Deep(src, s, d) && MemberTasks(src[s], c, news)
    ensures d > 0 && forall i :: 0 <= i < |news| ==> Deep(src, news[i].src, d - 1)
  {
  }

  ghost predicate AllDeep(src: Heap, tasks: seq<Task>, d: int) {
    forall i :: 0 <= i < |tasks| ==> d >= 0 && Deep(src, tasks[i].src, d)
  }

  /** The copy c is added to its module. */
  lemma AddedIs(src: Heap, h: Heap, t: Task, c: nat)
    requires t.src in src && t.mod in h && c != t.mod
    ensures var o := Object(src[t.src].kind, src[t.src].name, src[t.src].payload, map[], None);
            var g := h[c := o];
            var mod := g[t.mod].(members := g[t.mod].members[o.name := c]);
            g[t.mod := mod][c := o.(parent := Some(t.mod))] == AfterTask(src, h, t, c)
  {
  }

  lemma AfterTaskKeys(src: Heap, h: Heap, t: Task, c: nat)
    requires t.src in src && t.mod in h
    ensures AfterTask(src, h, t, c).Keys == h.Keys + {c}
  {
  }

  lemma DeepAdded(src: Heap, a: seq<Task>, b: seq<Task>, d: int)
    requires AllDeep(src, a, d) && d >= 0 && forall i :: 0 <= i < |b| ==> Deep(src, b[i].src, d)
    ensures AllDeep(src, a + b, d)
  {
  }

  /** The overloadings of the table that are in copies have been copied for c. */
  ghost predicate TableCopied(a: Overloads, table: map<nat, nat>, b: Overloads, copies: map<nat, nat>, c: nat) {
    forall k :: k in copies ==>
      && k in table && table[k] in a.objects && copies[k] in b.objects && copies[k] !in a.objects
      && b.objects[copies[k]] == a.objects[table[k]].(fn := c)
  }

  lemma NoneCopied(a: Overloads, table: map<nat, nat>, c: nat)
    ensures TableCopied(a, table, a, map[], c) && Kept(a, a)
  {
  }

  lemma OneCopied(a: Overloads, table: map<nat, nat>, b: Overloads, copies: map<nat, nat>, c: nat, k: nat, r: nat)
    requires TableCopied(a, table, b, copies, c) && Kept(a, b) && WfTable(a, table) && k in table && r !in b.objects
    ensures table[k] in b.objects && b.objects[table[k]].signature == k
    ensures var b' := b.(objects := b.objects[r := b.objects[table[k]].(fn := c)]);
            Kept(a, b') && TableCopied(a, table, b', copies[k := r], c)
  {
  }

  lemma TableStored(a: Overloads, s: nat, b: Overloads, copies: map<nat, nat>, c: nat)
    requires s in a.tables && TableCopied(a, a.tables[s], b, copies, c) && Kept(a, b)
    requires copies.Keys == a.tables[s].Keys && c !in a.tables
    ensures var b' := b.(tables := b.tables[c := copies]); Kept(a, b') && FnCopied(a, s, b', c)
  {
  }

  lemma TablesKept(src: Heap, a: Overloads, b: Overloads, origin: map<nat, nat>, s: nat)
    requires WfOverloads(src, a) && FnsCopied(src, a, b, origin) && s in src
    ensures src[s].kind == Fn ==> s in b.tables && WfTable(b, b.tables[s])
  {
  }

  lemma TaskFacts(src: Heap, h: Heap, origin: map<nat, nat>, root: nat, tasks: seq<Task>)
    requires WfHeap(src) && Copying(src, h, origin, root, tasks) && tasks != []
    ensures var t := tasks[0];
            && t.src in src && t.src in h && h[t.src] == src[t.src] && WfObject(h, h[t.src])
            && t.mod in h && t.mod in origin
  {
    NameIsNew(src, h, origin, root, tasks);
    assert WfObject(src, src[tasks[0].src]);
  }

  class Duplicator {
    var heap: Heap
    /** References from here on are not in use. */
    var next: nat
    var tasks: seq<Task>
    var overloads: Overloads
    var nextOverloading: nat
    ghost var source: Heap
    ghost var sourceOverloads: Overloads
    ghost var origin: map<nat, nat>

    ghost predicate Allocated()
      reads this`heap, this`next, this`overloads, this`nextOverloading
    {
      && (forall r :: r in heap ==> r < next) && (forall r :: r in overloads.tables ==> r < next)
      && (forall r :: r in overloads.objects ==> r < nextOverloading)
    }

    constructor (heap: Heap, next: nat, overloads: Overloads, nextOverloading: nat)
      requires forall r :: r in heap ==> r < next
      requires forall r :: r in overloads.tables ==> r < next
      requires forall r :: r in overloads.objects ==> r < nextOverloading
      ensures this.heap == heap && this.next == next && tasks == [] && Allocated()
      ensures this.overloads == overloads && this.nextOverloading == nextOverloading
    {
      this.heap, this.next, tasks, source, origin := heap, next, [], heap, map[];
      this.overloads, this.nextOverloading, sourceOverloads := overloads, nextOverloading, overloads;
    }

    /** Copies the overloadings of src, and points each copy back to c. */
    method CopyOverloadings(src: nat, c: nat)
      requires Allocated() && src in overloads.tables && WfTable(overloads, overloads.tables[src])
      requires c < next && c !in overloads.tables
      modifies this`overloads, this`nextOverloading
      ensures Allocated() && Kept(old(overloads), overloads) && FnCopied(old(overloads), src, overloads, c)
    {
      hide TableCopied, Kept, FnCopied, WfTable;
      NoneCopied(overloads, overloads.tables[src], c);
      var table := overloads.tables[src];
      var signatures := table.Keys;
      var copies: map<nat, nat> := map[];
      while signatures != {}
        invariant signatures <= table.Keys && copies.Keys == table.Keys - signatures
        invariant overloads.tables == old(overloads).tables && Kept(old(overloads), overloads)
        invariant forall r :: r in overloads.objects ==> r < nextOverloading
        invariant old(nextOverloading) <= nextOverloading
        invariant TableCopied(old(overloads), table, overloads, copies, c)
        decreases |signatures|
      {
        var k :| k in signatures;
        OneCopied(old(overloads), table, overloads, copies, c, k, nextOverloading);
        var copy := overloads.objects[table[k]].(fn := c);
        overloads := overloads.(objects := overloads.objects[nextOverloading := copy]);
        copies := copies[copy.signature := nextOverloading];
        nextOverloading := nextOverloading + 1;
        signatures := signatures - {k};
      }
      assert copies.Keys == table.Keys;
      TableStored(old(overloads), src, overloads, copies, c);
      overloads := overloads.(tables := overloads.tables[c := copies]);
    }

    /** A new object like src but without members, with copies of its overloadings if it is a function, and
        a task for each member of src. */
    method Duplicate(src: nat) returns (c: nat, ghost news: seq<Task>)
      requires Allocated() && src in heap && WfObject(heap, heap[src])
      requires heap[src].kind == Fn ==> src in overloads.tables && WfTable(overloads, overloads.tables[src])
      modifies this`heap, this`next, this`tasks, this`overloads, this`nextOverloading
      ensures Kept(old(overloads), overloads)
      ensures old(heap)[src].kind == Fn ==> FnCopied(old(overloads), src, overloads, c)
      ensures Allocated() && c !in old(heap) && MemberTasks(old(heap)[src], c, news) && tasks == old(tasks) + news
      ensures var o := old(heap)[src]; heap == old(heap)[c := Object(o.kind, o.name, o.payload, map[], None)]
    {
      var o := heap[src];
      c := next;
      next := next + 1;
      heap := heap[c := Object(o.kind, o.name, o.payload, map[], None)];
      if o.kind == Fn {
        CopyOverloadings(src, c);
      }
      hide FnCopied, Kept, WfTable;
      news := [];
      ghost var (after, copied) := (heap, overloads);
      var names := o.members.Keys;
      while names != {}
        invariant heap == after && next == c + 1 && Allocated()
        invariant overloads == copied
        invariant names <= o.members.Keys && tasks == old(tasks) + news
        invariant Distinct(news)
        invariant forall i :: 0 <= i < |news| ==> news[i].mod == c && IsMember(o, news[i].src)
        invariant forall n :: n in names ==> ModuleMember(c, o.members[n]) !in news
        invariant forall n :: n in o.members && n !in names ==> ModuleMember(c, o.members[n]) in news
        decreases |names|
      {
        var n :| n in names;
        var t := ModuleMember(c, o.members[n]);
        assert forall m :: m in names && m != n ==> o.members[m] != o.members[n];
        news := news + [t];
        tasks := tasks + [t];
        names := names - {n};
      }
    }
  
    /** The member is stored under its name, and its parent set. */
    method AddMember(mod: nat, member: nat)
      requires mod in heap && member in heap && mod != member
      modifies this`heap
      ensures var o := old(heap)[mod];
              heap == old(heap)[mod := o.(members := o.members[old(heap)[member].name := member])]
                      [member := old(heap)[member].(parent := Some(mod))]
    {
      var m := heap[mod];
      heap := heap[mod := m.(members := m.members[heap[member].name := member])];
      heap := heap[member := heap[member].(parent := Some(mod))];
    }

    /** The invariant of a duplication; all objects but those of the source are copies. */
    ghost predicate Going(root: nat, pending: seq<Task>)
      reads this`heap, this`next, this`source, this`origin
      reads this`overloads, this`nextOverloading, this`sourceOverloads
    {
      && WfHeap(source) && Allocated() && Copying(source, heap, origin, root, pending)
      && heap.Keys == source.Keys + origin.Keys
      && WfOverloads(source, sourceOverloads) && FnsCopied(source, sourceOverloads, overloads, origin)
    }

    /** One task: a copy of its source, added to its module. */
    method Perform(t: Task, ghost root: nat, ghost rest: seq<Task>, ghost d: nat)
      requires Going(root, [t] + rest + tasks) && Deep(source, t.src, d) && AllDeep(source, tasks, d - 1)
      modifies this`heap, this`next, this`tasks, this`origin, this`overloads, this`nextOverloading
      ensures Going(root, rest + tasks) && AllDeep(source, tasks, d - 1)
      ensures root in old(origin) ==> root in origin && origin[root] == old(origin[root])
    {
      hide Copying, Deep, WfHeap, WfObject, MemberTasks, AfterTask, AllDeep, Distinct;
      hide WfOverloads, FnsCopied, Kept, FnCopied, WfTable;
      ghost var (h, before, o, v) := (heap, tasks, origin, overloads);
      TaskFacts(source, h, o, root, [t] + rest + before);
      TablesKept(source, sourceOverloads, v, o, t.src);
      var c, news := Duplicate(t.src);
      FnsKeep(source, sourceOverloads, v, overloads, o, t.src, c);
      AddMember(t.mod, c);
      origin := origin[c := t.src];
      AddedIs(source, h, t, c);
      AfterTaskKeys(source, h, t, c);
      TaskKeeps(source, h, o, root, [t] + rest + before, c, news);
      TasksDeep(source, t.src, c, d, news);
      DeepAdded(source, before, news, d - 1);
      assert ([t] + rest + before)[1..] + news == rest + tasks;
    }

    /** One round: every task of the list, which asks for others in turn. */
    method Exec(ghost root: nat, ghost d: nat)
      requires Going(root, tasks) && AllDeep(source, tasks, d)
      modifies this`heap, this`next, this`tasks, this`origin, this`overloads, this`nextOverloading
      ensures Going(root, tasks) && AllDeep(source, tasks, d - 1)
      ensures root in old(origin) ==> root in origin && origin[root] == old(origin[root])
    {
      hide Copying, Deep, WfHeap, Going;
      var round := tasks;
      tasks := [];
      assert round[0..] + tasks == round;
      for i := 0 to |round|
        invariant Going(root, round[i..] + tasks) && AllDeep(source, tasks, d - 1)
        invariant root in old(origin) ==> root in origin && origin[root] == old(origin[root])
      {
        assert round[i..] + tasks == [round[i]] + round[i + 1..] + tasks;
        Perform(round[i], root, round[i + 1..], d);
      }
      assert round[|round|..] + tasks == tasks;
    }
  
    /** The copy of an object that contains itself nowhere: it comes to an end, leaves the source alone, and
        makes an equal object all of whose parts are new, each part held by its parent alone. */
    method DuplicateObject(src: nat, ghost d: nat) returns (copy: nat)
      requires tasks == [] && Allocated() && WfHeap(heap) && WfOverloads(heap, overloads) && Deep(heap, src, d)
      modifies this
      ensures copy !in old(heap) && copy in heap && heap[copy].parent == None
      ensures Isomorphic(Image(old(heap), old(overloads)), src, Image(heap, overloads), copy, d)
      ensures forall r :: r in old(heap) ==> r in heap && heap[r] == old(heap[r])
      ensures forall c :: c in heap && c !in old(heap) ==> HeldByParent(old(heap), heap, copy, c)
      ensures Kept(old(overloads), overloads) && tasks == []
    {
      hide Copying, Isomorphic, HeldByParent, MemberTasks, Kept, FnCopied, FnsCopied, WfTable;
      ghost var (h, v) := (heap, overloads);
      assert WfObject(heap, heap[src]);
      ghost var news;
      copy, news := Duplicate(src);
      source, sourceOverloads, origin := h, v, map[copy := src];
      Started(h, src, copy, news);
      FirstFn(h, v, overloads, src, copy);
      TasksDeep(h, src, copy, d, news);
      hide WfHeap, WfObject, Deep, WfOverloads;
      assert tasks == news;
      ghost var level: int := d - 1;
      while |tasks| != 0
        invariant source == h && sourceOverloads == v && Going(copy, tasks) && AllDeep(source, tasks, level)
        invariant copy in origin && origin[copy] == src
        decreases level
      {
        assert AllDeep(source, [tasks[0]], level) && [tasks[0]][0] == tasks[0];
        Exec(copy, level);
        level := level - 1;
      }
      assert tasks == [];
      Whole(Image(h, v), Image(heap, overloads), origin, copy, d);
    }
  }

  lemma FirstFn(src: Heap, a: Overloads, b: Overloads, s: nat, c: nat)
    requires Kept(a, b) && s in src && (src[s].kind == Fn ==> FnCopied(a, s, b, c))
    ensures FnsCopied(src, a, b, map[c := s])
  {
  }

  /** A part of the copy, other than the whole: new, and held under its name by the new object that is its
      parent. Its own members are new as well. */
  ghost predicate HeldByParent(src: Heap, h: Heap, copy: nat, c: nat)
    requires c in h
  {
    && (forall n :: n in h[c].members ==> h[c].members[n] in h && h[c].members[n] !in src)
    && (c != copy ==>
          && h[c].parent.Some? && h[c].parent.value in h && h[c].parent.value !in src
          && h[c].name in h[h[c].parent.value].members && h[h[c].parent.value].members[h[c].name] == c)
  }

  lemma Whole(src: Image, h: Image, origin: map<nat, nat>, root: nat, d: nat)
    requires Copying(src.objects, h.objects, origin, root, []) && Deep(src.objects, origin[root], d)
    requires FnsCopied(src.objects, src.overloads, h.overloads, origin)
    requires h.objects.Keys == src.objects.Keys + origin.Keys
    ensures root !in src.objects && root in h.objects && h.objects[root].parent == None
    ensures Isomorphic(src, origin[root], h, root, d) && Kept(src.overloads, h.overloads)
    ensures forall r :: r in src.objects ==> r in h.objects && h.objects[r] == src.objects[r]
    ensures forall c :: c in h.objects && c !in src.objects ==> HeldByParent(src.objects, h.objects, root, c)
  {
    CopiedWhole(src, h, origin, root, root, d);
    CopyFacts(src.objects, h.objects, origin, root, [], root);
    hide FnCopied, Isomorphic, Kept;
    forall c | c in h.objects && c !in src.objects
      ensures HeldByParent(src.objects, h.objects, root, c)
    {
      assert c in h.objects.Keys && c in origin;
      Held(src.objects, h.objects, origin, root, c);
    }
  }

  lemma Held(src: Heap, h: Heap, origin: map<nat, nat>, root: nat, c: nat)
    requires Copying(src, h, origin, root, []) && c in origin && c in h
    ensures HeldByParent(src, h, root, c)
  {
    CopyFacts(src, h, origin, root, [], c);
    forall n | n in h[c].members
      ensures h[c].members[n] in h && h[c].members[n] !in src
    {
      CopyFacts(src, h, origin, root, [], h[c].members[n]);
    }
    if c != root {
      CopyFacts(src, h, origin, root, [], h[c].parent.value);
    }
  }
}
