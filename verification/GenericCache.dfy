/** The cache of instantiated generic objects and the comparator its tables are ordered by
    (slake/rt/generic.cc, slake/obj/generic.cc, slake/type.cc). */
module GenericCache {
  import opened TypeRefs
  import opened Wrappers

  type Args = seq<TypeRef>

  /** The first difference from index i on. */
  ghost function Difference(l: Args, r: Args, i: nat): int
    requires i <= |l| == |r|
    decreases |l| - i
  {
    if i == |l| then 0
    else if CompareTypes(l[i], r[i]) != 0 then CompareTypes(l[i], r[i])
    else Difference(l, r, i + 1)
  }

  ghost function Compare(l: Args, r: Args): int {
    if |l| < |r| then -1 else if |l| > |r| then 1 else Difference(l, r, 0)
  }

  method CompareArgs(l: Args, r: Args) returns (c: int)
    ensures c == Compare(l, r)
  {
    if |l| < |r| {
      return -1;
    }
    if |l| > |r| {
      return 1;
    }
    for i := 0 to |l|
      invariant Compare(l, r) == Difference(l, r, i)
    {
      if CompareTypes(l[i], r[i]) < 0 {
        return -1;
      }
      if CompareTypes(l[i], r[i]) > 0 {
        return 1;
      }
    }
    return 0;
  }

  // ----- The comparator is a total order

  lemma {:induction false} DifferenceOrder(a: Args, b: Args, c: Args, i: nat)
    requires i <= |a| == |b| == |c|
    ensures Difference(a, b, i) == -Difference(b, a, i)
    ensures Difference(a, b, i) == 0 <==> forall k :: i <= k < |a| ==> a[k] == b[k]
    ensures Difference(a, b, i) <= 0 && Difference(b, c, i) <= 0 ==>
              Difference(a, c, i) <= 0 && (Difference(a, b, i) < 0 || Difference(b, c, i) < 0 ==>
                  Difference(a, c, i) < 0)
    decreases |a| - i
  {
    if i < |a| {
      DifferenceOrder(a, b, c, i + 1);
      SameTypesExactly(a[i], b[i]);
      TypesOrdered(a[i], b[i], c[i]);
      hide CompareTypes;
    }
  }

  /** Any two lists are in order one way or the other, in both exactly when they are the same lists of types; and
      the order is transitive. */
  lemma TotalOrder(a: Args, b: Args, c: Args)
    ensures Compare(a, b) == -Compare(b, a)
    ensures Compare(a, b) == 0 <==> a == b
    ensures Compare(a, b) <= 0 && Compare(b, c) <= 0 ==>
              Compare(a, c) <= 0 && (Compare(a, b) < 0 || Compare(b, c) < 0 ==> Compare(a, c) < 0)
  {
    if |a| == |b| {
      DifferenceOrder(a, b, if |c| == |a| then c else a, 0);
    }
    hide Difference;
  }

  // ----- One table: a map ordered by the comparator

  datatype Entry = Entry(args: Args, instance: nat)

  type Table = seq<Entry>

  ghost predicate Sorted(t: Table) {
    forall i, j :: 0 <= i < j < |t| ==> Compare(t[i].args, t[j].args) < 0
  }

  /** The table holds exactly the pairs of m. */
  ghost predicate Tabulates(t: Table, m: map<Args, nat>) {
    && Sorted(t)
    && (forall i :: 0 <= i < |t| ==> t[i].args in m && m[t[i].args] == t[i].instance)
    && (forall k :: k in m ==> exists i :: 0 <= i < |t| && t[i].args == k)
  }

  /** The first entry that is not before args. */
  method Position(t: Table, args: Args) returns (p: nat)
    ensures p <= |t|
    ensures forall i :: 0 <= i < p ==> Compare(t[i].args, args) < 0
    ensures p < |t| ==> Compare(t[p].args, args) >= 0
  {
    p := 0;
    while p < |t|
      invariant p <= |t| && forall i :: 0 <= i < p ==> Compare(t[i].args, args) < 0
    {
      var c := CompareArgs(t[p].args, args);
      if c >= 0 {
        return;
      }
      p := p + 1;
    }
  }

  ghost predicate IsPosition(t: Table, args: Args, p: nat) {
    && p <= |t| && (forall i :: 0 <= i < p ==> Compare(t[i].args, args) < 0)
    && (p < |t| ==> Compare(t[p].args, args) >= 0)
  }

  /** The order makes the search complete: if args is in the table at all, it is at its position. */
  lemma Found(t: Table, m: map<Args, nat>, args: Args, p: nat)
    requires Tabulates(t, m) && IsPosition(t, args, p)
    ensures args in m <==> p < |t| && Compare(t[p].args, args) == 0
    ensures args in m ==> t[p].instance == m[args]
    ensures forall i :: p < i < |t| ==> Compare(args, t[i].args) < 0
  {
    hide Compare;
    if p < |t| {
      TotalOrder(t[p].args, args, args);
      forall i | p < i < |t|
        ensures Compare(args, t[i].args) < 0
      {
        TotalOrder(args, t[p].args, t[i].args);
      }
    }
    if args in m {
      var i :| 0 <= i < |t| && t[i].args == args;
      TotalOrder(t[i].args, args, args);
      TotalOrder(args, t[i].args, args);
      assert i == p;
    }
  }

  lemma InsertedSorted(t: Table, e: Entry, p: nat)
    requires Sorted(t) && p <= |t|
    requires forall i :: 0 <= i < p ==> Compare(t[i].args, e.args) < 0
    requires forall i :: p <= i < |t| ==> Compare(e.args, t[i].args) < 0
    ensures Sorted(t[..p] + [e] + t[p..])
  {
    hide Compare;
    var u := t[..p] + [e] + t[p..];
    forall i, j | 0 <= i < j < |u|
      ensures Compare(u[i].args, u[j].args) < 0
    {
      var (a, b) := (if i > p then i - 1 else i, if j > p then j - 1 else j);
      if i == p {
        assert u[i] == e && u[j] == t[b];
      } else if j == p {
        assert u[j] == e && u[i] == t[a];
      } else {
        assert u[i] == t[a] && u[j] == t[b];
      }
    }
  }

  lemma Inserted(t: Table, m: map<Args, nat>, args: Args, instance: nat, p: nat)
    requires Tabulates(t, m) && IsPosition(t, args, p) && args !in m
    ensures Tabulates(t[..p] + [Entry(args, instance)] + t[p..], m[args := instance])
  {
    hide Compare;
    var (u, n) := (t[..p] + [Entry(args, instance)] + t[p..], m[args := instance]);
    Found(t, m, args, p);
    if p < |t| {
      TotalOrder(t[p].args, args, args);
    }
    InsertedSorted(t, Entry(args, instance), p);
    hide Sorted, IsPosition;
    EntriesKept(t, m, Entry(args, instance), p);
    KeysKept(t, m, Entry(args, instance), p);
  }

  lemma EntriesKept(t: Table, m: map<Args, nat>, e: Entry, p: nat)
    requires p <= |t| && e.args !in m
    requires forall i :: 0 <= i < |t| ==> t[i].args in m && m[t[i].args] == t[i].instance
    ensures var (u, n) := (t[..p] + [e] + t[p..], m[e.args := e.instance]);
            forall i :: 0 <= i < |u| ==> u[i].args in n && n[u[i].args] == u[i].instance
  {
    var (u, n) := (t[..p] + [e] + t[p..], m[e.args := e.instance]);
    forall i | 0 <= i < |u|
      ensures u[i].args in n && n[u[i].args] == u[i].instance
    {
      assert i != p ==> u[i] == t[if i < p then i else i - 1];
    }
  }

  lemma KeysKept(t: Table, m: map<Args, nat>, e: Entry, p: nat)
    requires p <= |t| && forall k :: k in m ==> exists i :: 0 <= i < |t| && t[i].args == k
    ensures var (u, n) := (t[..p] + [e] + t[p..], m[e.args := e.instance]);
            forall k :: k in n ==> exists i :: 0 <= i < |u| && u[i].args == k
  {
    var (u, n) := (t[..p] + [e] + t[p..], m[e.args := e.instance]);
    forall k | k in n
      ensures exists i :: 0 <= i < |u| && u[i].args == k
    {
      if k == e.args {
        assert u[p] == e;
      } else {
        var i :| 0 <= i < |t| && t[i].args == k;
        assert u[if i < p then i else i + 1] == t[i];
      }
    }
  }

  lemma Overwritten(t: Table, m: map<Args, nat>, args: Args, instance: nat, p: nat)
    requires Tabulates(t, m) && IsPosition(t, args, p) && args in m
    ensures p < |t| && Tabulates(t[p := Entry(t[p].args, instance)], m[args := instance])
  {
    hide Compare;
    Found(t, m, args, p);
    TotalOrder(t[p].args, args, args);
    var (u, n) := (t[p := Entry(t[p].args, instance)], m[args := instance]);
    forall i | 0 <= i < |u|
      ensures u[i].args in n && n[u[i].args] == u[i].instance
    {
      if i != p {
        OnceOnly(t, i, p);
      }
    }
    forall k | k in n
      ensures exists i :: 0 <= i < |u| && u[i].args == k
    {
      var i :| 0 <= i < |t| && t[i].args == k;
      assert u[i].args == t[i].args;
    }
  }

  lemma OnceOnly(t: Table, i: nat, j: nat)
    requires Sorted(t) && i < |t| && j < |t| && i != j
    ensures t[i].args != t[j].args
  {
    hide Compare;
    TotalOrder(t[i].args, t[j].args, t[j].args);
    TotalOrder(t[j].args, t[i].args, t[j].args);
  }

  lemma RemovedSorted(t: Table, p: nat)
    requires Sorted(t) && p < |t|
    ensures Sorted(t[..p] + t[p + 1..])
  {
    hide Compare;
    var u := t[..p] + t[p + 1..];
    forall i, j | 0 <= i < j < |u|
      ensures Compare(u[i].args, u[j].args) < 0
    {
      assert u[i] == t[if i < p then i else i + 1] && u[j] == t[if j < p then j else j + 1];
    }
  }

  lemma Removed(t: Table, m: map<Args, nat>, args: Args, p: nat)
    requires Tabulates(t, m) && IsPosition(t, args, p) && args in m
    ensures p < |t| && Tabulates(t[..p] + t[p + 1..], m - {args})
  {
    hide Compare;
    Found(t, m, args, p);
    TotalOrder(t[p].args, args, args);
    RemovedSorted(t, p);
    var (u, n) := (t[..p] + t[p + 1..], m - {args});
    forall i | 0 <= i < |u|
      ensures u[i].args in n && n[u[i].args] == u[i].instance
    {
      var a := if i < p then i else i + 1;
      assert u[i] == t[a];
      OnceOnly(t, a, p);
    }
    forall k | k in n
      ensures exists i :: 0 <= i < |u| && u[i].args == k
    {
      var i :| 0 <= i < |t| && t[i].args == k;
      assert i != p;
      assert u[if i < p then i else i - 1] == t[i];
    }
  }

  lemma NoEntries()
    ensures Tabulates([], map[])
  {
  }

  lemma SomeEntries(t: Table, m: map<Args, nat>)
    requires Tabulates(t, m)
    ensures t == [] <==> m == map[]
  {
    hide Compare;
    if t != [] {
      assert t[0].args in m;
    }
    if m != map[] {
      var k :| k in m;
      var i :| 0 <= i < |t| && t[i].args == k;
    }
  }

  /** Stores an instance under args, in place of the one stored under equal arguments. */
  method PutEntry(t: Table, args: Args, instance: nat, ghost m: map<Args, nat>) returns (r: Table)
    requires Tabulates(t, m)
    ensures Tabulates(r, m[args := instance])
  {
    hide Compare, Tabulates;
    var p := Position(t, args);
    Found(t, m, args, p);
    var found := false;
    if p < |t| {
      var c := CompareArgs(t[p].args, args);
      found := c == 0;
    }
    if found {
      Overwritten(t, m, args, instance, p);
      return t[p := Entry(t[p].args, instance)];
    } else {
      Inserted(t, m, args, instance, p);
      return t[..p] + [Entry(args, instance)] + t[p..];
    }
  }

  method RemoveEntry(t: Table, args: Args, ghost m: map<Args, nat>) returns (r: Table)
    requires Tabulates(t, m)
    ensures Tabulates(r, m - {args})
  {
    hide Compare, Tabulates;
    var p := Position(t, args);
    Found(t, m, args, p);
    if p < |t| {
      var c := CompareArgs(t[p].args, args);
      if c == 0 {
        Removed(t, m, args, p);
        return t[..p] + t[p + 1..];
      }
    }
    assert m - {args} == m;
    return t;
  }

  // ----- The plain map

  type Model = map<nat, map<Args, nat>>

  ghost function Stored(m: Model, original: nat, args: Args): Option<nat> {
    if original in m && args in m[original] then Some(m[original][args]) else None
  }

  ghost function Slice(m: Model, original: nat): map<Args, nat> {
    if original in m then m[original] else map[]
  }

  ghost function Put(m: Model, original: nat, args: Args, instance: nat): Model {
    m[original := Slice(m, original)[args := instance]]
  }

  ghost function Drop(m: Model, original: nat, args: Args): Model {
    var rest := Slice(m, original) - {args};
    if rest == map[] then m - {original} else m[original := rest]
  }

  lemma PutStores(m: Model, original: nat, args: Args, instance: nat, other: nat, otherArgs: Args)
    ensures Stored(Put(m, original, args, instance), other, otherArgs)
            == if other == original && otherArgs == args then Some(instance) else Stored(m, other, otherArgs)
  {
  }

  lemma DropRemoves(m: Model, original: nat, args: Args, other: nat, otherArgs: Args)
    ensures Stored(Drop(m, original, args), other, otherArgs)
            == if other == original && otherArgs == args then None else Stored(m, other, otherArgs)
  {
    if other == original && otherArgs != args && Stored(m, other, otherArgs).Some? {
      assert otherArgs in Slice(m, original) - {args};
    }
  }

  datatype LookupEntry = LookupEntry(original: nat, args: Args)

  /** Each table holds what the map has for its object, and none is empty. */
  ghost predicate Holds(dir: map<nat, Table>, m: Model) {
    && dir.Keys == m.Keys
    && (forall o :: o in dir ==> dir[o] != [] && Tabulates(dir[o], m[o]))
  }

  lemma TableOf(dir: map<nat, Table>, m: Model, original: nat)
    requires Holds(dir, m)
    ensures Tabulates(if original in dir then dir[original] else [], Slice(m, original))
  {
    hide Tabulates;
    NoEntries();
  }

  lemma HoldsPut(dir: map<nat, Table>, m: Model, original: nat, args: Args, instance: nat, t: Table)
    requires Holds(dir, m) && Tabulates(t, Slice(m, original)[args := instance])
    ensures Holds(dir[original := t], Put(m, original, args, instance))
  {
    SomeEntries(t, Slice(m, original)[args := instance]);
    hide Tabulates;
    assert args in Slice(m, original)[args := instance];
  }

  lemma HoldsDrop(dir: map<nat, Table>, m: Model, original: nat, args: Args, t: Table)
    requires Holds(dir, m) && Tabulates(t, Slice(m, original) - {args})
    ensures |t| == 0 ==> Holds(dir - {original}, Drop(m, original, args))
    ensures |t| > 0 ==> Holds(dir[original := t], Drop(m, original, args))
  {
    SomeEntries(t, Slice(m, original) - {args});
    hide Tabulates;
  }

  /** The lookup table is the inverse of the map. */
  ghost predicate Inverse(lookup: map<nat, LookupEntry>, m: Model) {
    && (forall x :: x in lookup ==> Stored(m, lookup[x].original, lookup[x].args) == Some(x))
    && (forall o, k :: o in m && k in m[o] ==>
          m[o][k] in lookup && lookup[m[o][k]].original == o && lookup[m[o][k]].args == k)
  }

  lemma OverwritingLeavesStale(lookup: map<nat, LookupEntry>, m: Model, original: nat, args: Args, instance: nat)
    requires Inverse(lookup, m) && instance !in lookup && Stored(m, original, args).Some?
    ensures !Inverse(lookup[instance := LookupEntry(original, args)], Put(m, original, args, instance))
  {
    var (l, n) := (lookup[instance := LookupEntry(original, args)], Put(m, original, args, instance));
    var stale := Stored(m, original, args).value;
    assert stale in l && l[stale].original == original && l[stale].args == args;
    PutStores(m, original, args, instance, original, l[stale].args);
  }

  lemma StoringKeepsInverse(lookup: map<nat, LookupEntry>, m: Model, original: nat, args: Args, instance: nat)
    requires Inverse(lookup, m) && instance !in lookup && Stored(m, original, args).None?
    ensures Inverse(lookup[instance := LookupEntry(original, args)], Put(m, original, args, instance))
  {
    var (l, n) := (lookup[instance := LookupEntry(original, args)], Put(m, original, args, instance));
    forall x | x in l
      ensures Stored(n, l[x].original, l[x].args) == Some(x)
    {
      PutStores(m, original, args, instance, l[x].original, l[x].args);
    }
    forall o, k | o in n && k in n[o]
      ensures n[o][k] in l && l[n[o][k]].original == o && l[n[o][k]].args == k
    {
      if o != original || k != args {
        assert o in m && k in m[o] && n[o][k] == m[o][k];
      }
    }
  }

  /** Storing a new instance keeps the lookup table an inverse exactly when nothing was stored under
      these arguments before: the entry of an instance that is overwritten stays behind. */
  lemma StoreKeepsInverseExactly(lookup: map<nat, LookupEntry>, m: Model, original: nat, args: Args, instance: nat)
    requires Inverse(lookup, m) && instance !in lookup
    ensures Inverse(lookup[instance := LookupEntry(original, args)], Put(m, original, args, instance))
            <==> Stored(m, original, args).None?
  {
    hide *;
    if Stored(m, original, args).Some? {
      OverwritingLeavesStale(lookup, m, original, args, instance);
    } else {
      StoringKeepsInverse(lookup, m, original, args, instance);
    }
  }

  /** n is m without the instance i. */
  ghost predicate Forgets(m: Model, n: Model, i: nat) {
    forall o, args :: Stored(n, o, args) == if Stored(m, o, args) == Some(i) then None else Stored(m, o, args)
  }

  /** Without an instance and its entry the tables are still inverse, and the map has lost that instance. */
  lemma InvalidateKeepsInverse(lookup: map<nat, LookupEntry>, m: Model, i: nat)
    requires Inverse(lookup, m) && i in lookup
    ensures Inverse(lookup - {i}, Drop(m, lookup[i].original, lookup[i].args))
    ensures Forgets(m, Drop(m, lookup[i].original, lookup[i].args), i)
  {
    hide *;
    DropForgets(lookup, m, i);
    DropKeepsInverse(lookup, m, i);
  }

  lemma DropForgets(lookup: map<nat, LookupEntry>, m: Model, i: nat)
    requires Inverse(lookup, m) && i in lookup
    ensures Forgets(m, Drop(m, lookup[i].original, lookup[i].args), i)
  {
    hide Drop;
    var (original, args) := (lookup[i].original, lookup[i].args);
    forall o, a
      ensures Stored(Drop(m, original, args), o, a) == if Stored(m, o, a) == Some(i) then None else Stored(m, o, a)
    {
      DropRemoves(m, original, args, o, a);
    }
  }

  lemma DropKeepsInverse(lookup: map<nat, LookupEntry>, m: Model, i: nat)
    requires Inverse(lookup, m) && i in lookup
    ensures Inverse(lookup - {i}, Drop(m, lookup[i].original, lookup[i].args))
  {
    var (original, args) := (lookup[i].original, lookup[i].args);
    var (l, n) := (lookup - {i}, Drop(m, original, args));
    forall x | x in l
      ensures Stored(n, l[x].original, l[x].args) == Some(x)
    {
      DropRemoves(m, original, args, l[x].original, l[x].args);
    }
    forall o, k | o in n && k in n[o]
      ensures n[o][k] in l && l[n[o][k]].original == o && l[n[o][k]].args == k
    {
      assert o in m && k in m[o] && n[o][k] == m[o][k];
    }
  }

  ghost predicate Mirrors(dir: map<nat, Table>, lookup: map<nat, LookupEntry>, m: Model) {
    Holds(dir, m) && Inverse(lookup, m)
  }

  class Cache {
    var dir: map<nat, Table>
    var lookup: map<nat, LookupEntry>
    ghost var model: Model

    ghost predicate Valid()
      reads this
    {
      Mirrors(dir, lookup, model)
    }

    constructor ()
      ensures Valid() && model == map[]
    {
      dir := map[];
      lookup := map[];
      model := map[];
    }

    /** The lookup at the start of an instantiation. */
    method Find(original: nat, args: Args) returns (r: Option<nat>)
      requires Holds(dir, model)
      ensures r == Stored(model, original, args)
    {
      hide Compare;
      if original !in dir {
        return None;
      }
      var table := dir[original];
      var p := Position(table, args);
      Found(table, model[original], args, p);
      if p < |table| {
        var c := CompareArgs(table[p].args, args);
        if c == 0 {
          return Some(table[p].instance);
        }
      }
      return None;
    }

    method SetGenericCache(original: nat, args: Args, instance: nat)
      requires Holds(dir, model) && instance !in lookup
      modifies this
      ensures Holds(dir, model) && model == Put(old(model), original, args, instance)
      ensures lookup == old(lookup)[instance := LookupEntry(original, args)]
    {
      TableOf(dir, model, original);
      hide *;
      ghost var d := dir;
      if original !in dir {
        dir := dir[original := []];
      }
      var table := PutEntry(dir[original], args, instance, Slice(model, original));
      dir := dir[original := table];
      HoldsPut(d, model, original, args, instance, table);
      assert dir == d[original := table];
      lookup := lookup[instance := LookupEntry(original, args)];
      model := Put(model, original, args, instance);
    }

    /** Forgets an object that is destroyed. */
    method InvalidateGenericCache(i: nat)
      requires Holds(dir, model) && (i in lookup ==> lookup[i].original in dir)
      modifies this
      ensures Holds(dir, model) && lookup == old(lookup) - {i}
      ensures model == if i in old(lookup) then Drop(old(model), old(lookup[i].original), old(lookup[i].args))
                else old(model)
    {
      hide *;
      if i in lookup {
        var entry := lookup[i];
        TableOf(dir, model, entry.original);
        ghost var d := dir;
        var table := RemoveEntry(dir[entry.original], entry.args, Slice(model, entry.original));
        HoldsDrop(d, model, entry.original, entry.args, table);
        dir := dir[entry.original := table];
        if |table| == 0 {
          dir := dir - {entry.original};
          assert dir == d - {entry.original};
        }
        lookup := lookup - {i};
        model := Drop(model, entry.original, entry.args);
      } else {
        assert lookup == lookup - {i};
      }
    }

    /** The ends of an instantiation: the stored instance if there is one, and else the new duplicate. */
    method Instantiate(original: nat, args: Args, duplicate: nat) returns (r: nat)
      requires Valid() && duplicate !in lookup
      modifies this
      ensures Valid()
      ensures r == if Stored(old(model), original, args).Some? then Stored(old(model), original, args).value
                else duplicate
      ensures model == if Stored(old(model), original, args).Some? then old(model)
                else Put(old(model), original, args, duplicate)
      ensures forall o, types :: Stored(model, o, types) == Some(r) <==> o == original && types == args
    {
      var hit := Find(original, args);
      if hit.Some? {
        StoredOnce(lookup, model, original, args);
        return hit.value;
      }
      StoreKeepsInverseExactly(lookup, model, original, args, duplicate);
      StoredOnce(
        lookup[duplicate := LookupEntry(original, args)], Put(model, original, args, duplicate), original, args);
      hide *;
      SetGenericCache(original, args, duplicate);
      return duplicate;
    }

    /** The destruction of an object of the cache, or of any other. */
    method Destroy(i: nat)
      requires Valid()
      modifies this
      ensures Valid() && Forgets(old(model), model, i)
    {
      Destroyable(dir, lookup, model, i);
      hide *;
      ghost var (l, m) := (lookup, model);
      InvalidateGenericCache(i);
      DestroyedValid(dir, l, lookup, m, model, i);
    }

    /** Any sequence of instantiations and destructions leaves the tables inverse to each other, and the
        cache equal to the plain map that the sequence describes; so are the instances it returned. */
    method Run(events: seq<Event>) returns (rs: seq<nat>)
      requires Valid() && model == map[] && FreshDuplicates(events)
      modifies this
      ensures Valid() && Agrees(model, events)
      ensures |rs| == |events|
      ensures forall j :: 0 <= j < |events| && events[j].Instantiated? ==> rs[j] == Returned(events, j)
      ensures forall j, k :: 0 <= j < k < |events| && events[j].Instantiated? && events[k].Instantiated?
                             && Destroyed(rs[j]) !in events[j..k] ==>
                (rs[j] == rs[k] <==> events[j].original == events[k].original && events[j].args == events[k].args)
    {
      NothingStored(model);
      hide Mirrors, Agrees, FreshDuplicates, Returned, Put, Stored, Forgets, Meaning;
      rs := [];
      for j := 0 to |events|
        invariant Valid() && Agrees(model, events[..j]) && |rs| == j
        invariant forall i :: 0 <= i < j && events[i].Instantiated? ==> rs[i] == Returned(events, i)
      {
        ghost var m := model;
        var r := 0;
        EventFacts(dir, lookup, model, events, j);
        if events[j].Instantiated? {
          r := Instantiate(events[j].original, events[j].args, events[j].instance);
        } else {
          Destroy(events[j].instance);
        }
        AgreesOn(m, model, events, j);
        rs := rs + [r];
      }
      assert events[..|events|] == events;
      forall j, k | 0 <= j < k < |events| && events[j].Instantiated? && events[k].Instantiated?
                    && Destroyed(rs[j]) !in events[j..k]
        ensures rs[j] == rs[k] <==> events[j].original == events[k].original && events[j].args == events[k].args
      {
        SameInstanceExactly(events, j, k);
      }
    }
  }

  lemma StoredOnce(l: map<nat, LookupEntry>, m: Model, original: nat, args: Args)
    requires Inverse(l, m) && Stored(m, original, args).Some?
    ensures forall o, types :: Stored(m, o, types) == Stored(m, original, args) <==> o == original && types == args
  {
  }

  lemma Destroyable(dir: map<nat, Table>, lookup: map<nat, LookupEntry>, m: Model, i: nat)
    requires Holds(dir, m) && Inverse(lookup, m)
    ensures i in lookup ==> lookup[i].original in dir
  {
  }

  lemma DestroyedValid(dir: map<nat, Table>, l: map<nat, LookupEntry>, lookup: map<nat, LookupEntry>, m: Model,
                       n: Model, i: nat)
    requires Inverse(l, m) && lookup == l - {i}
    requires n == if i in l then Drop(m, l[i].original, l[i].args) else m
    ensures Inverse(lookup, n) && Forgets(m, n, i)
  {
    if i in l {
      InvalidateKeepsInverse(l, m, i);
    } else {
      NotStored(l, m, i);
      assert lookup == l;
    }
  }

  lemma NotStored(l: map<nat, LookupEntry>, m: Model, i: nat)
    requires Inverse(l, m) && i !in l
    ensures Forgets(m, m, i)
  {
  }

  // ----- Runs

  datatype Event =
    | Instantiated(original: nat, args: Args, instance: nat)
    | Destroyed(instance: nat)

  /** The instance that the events leave stored for an object and a list of arguments. */
  ghost function Meaning(events: seq<Event>, original: nat, key: Args): Option<nat> {
    if events == [] then None else
      var (before, e) := (Meaning(events[..|events| - 1], original, key), events[|events| - 1]);
      if e.Destroyed? then (if before == Some(e.instance) then None else before)
      else if before.None? && e.original == original && e.args == key then Some(e.instance)
      else before
  }

  /** A duplicate is a new object. */
  ghost predicate FreshDuplicates(events: seq<Event>) {
    forall j, o, k :: 0 <= j < |events| && events[j].Instantiated? ==>
        Meaning(events[..j], o, k) != Some(events[j].instance)
  }

  ghost function Returned(events: seq<Event>, j: nat): nat
    requires j < |events| && events[j].Instantiated?
  {
    var before := Meaning(events[..j], events[j].original, events[j].args);
    if before.Some? then before.value else events[j].instance
  }

  lemma {:induction false} StaysStored(events: seq<Event>, original: nat, args: Args, x: nat, j: nat, k: nat)
    requires j <= k <= |events| && Meaning(events[..j], original, args) == Some(x) && Destroyed(x) !in events[j..k]
    ensures Meaning(events[..k], original, args) == Some(x)
    decreases k
  {
    if j < k {
      assert events[j..k] == events[j..k - 1] + [events[k - 1]];
      assert events[..k][..k - 1] == events[..k - 1];
      StaysStored(events, original, args, x, j, k - 1);
    }
  }

  lemma {:induction false} StoredForOne(events: seq<Event>, k: nat, o: nat, a: Args, p: nat, b: Args)
    requires FreshDuplicates(events) && k <= |events|
    requires Meaning(events[..k], o, a).Some? && Meaning(events[..k], o, a) == Meaning(events[..k], p, b)
    ensures o == p && a == b
    decreases k
  {
    var before := events[..k][..k - 1];
    assert before == events[..k - 1];
    if Meaning(before, o, a).Some? && Meaning(before, p, b).Some? {
      StoredForOne(events, k - 1, o, a, p, b);
    }
  }

  /** As long as the first of two instances has not been destroyed, the second is the same exactly when both were asked
      for with the same original object and the same types. */
  lemma SameInstanceExactly(events: seq<Event>, j: nat, k: nat)
    requires FreshDuplicates(events) && j < k < |events| && events[j].Instantiated? && events[k].Instantiated?
    requires Destroyed(Returned(events, j)) !in events[j..k]
    ensures Returned(events, j) == Returned(events, k) <==>
              events[j].original == events[k].original && events[j].args == events[k].args
  {
    var (o, a, x) := (events[j].original, events[j].args, Returned(events, j));
    assert events[..j + 1][..j] == events[..j];
    assert Meaning(events[..j + 1], o, a) == Some(x);
    assert events[j..k] == [events[j]] + events[j + 1..k];
    StaysStored(events, o, a, x, j + 1, k);
    if Meaning(events[..k], events[k].original, events[k].args) == Some(x) {
      StoredForOne(events, k, o, a, events[k].original, events[k].args);
    }
  }

  ghost predicate Agrees(m: Model, events: seq<Event>) {
    forall o, args :: Stored(m, o, args) == Meaning(events, o, args)
  }

  lemma NothingStored(m: Model)
    requires m == map[]
    ensures Agrees(m, [])
  {
  }

  lemma EventFacts(dir: map<nat, Table>, lookup: map<nat, LookupEntry>, m: Model, events: seq<Event>, j: nat)
    requires Mirrors(dir, lookup, m) && j < |events| && Agrees(m, events[..j]) && FreshDuplicates(events)
    ensures events[j].Instantiated? ==> events[j].instance !in lookup
    ensures events[j].Instantiated? ==>
              var stored := Stored(m, events[j].original, events[j].args);
              Returned(events, j) == if stored.Some? then stored.value else events[j].instance
  {
    hide Meaning;
    var e := if events[j].instance in lookup then lookup[events[j].instance] else LookupEntry(0, []);
    assert Stored(m, e.original, e.args) == Meaning(events[..j], e.original, e.args);
  }

  lemma AgreesOn(m: Model, n: Model, events: seq<Event>, j: nat)
    requires j < |events| && Agrees(m, events[..j])
    requires events[j].Destroyed? ==> Forgets(m, n, events[j].instance)
    requires events[j].Instantiated? ==>
               n == if Stored(m, events[j].original, events[j].args).Some? then m
                    else Put(m, events[j].original, events[j].args, events[j].instance)
    ensures Agrees(n, events[..j + 1])
  {
    hide Stored, Put;
    var (es, e) := (events[..j + 1], events[j]);
    assert es[..|es| - 1] == events[..j];
    forall o, args
      ensures Stored(n, o, args) == Meaning(es, o, args)
    {
      assert Stored(m, o, args) == Meaning(events[..j], o, args);
      if e.Instantiated? {
        PutStores(m, e.original, e.args, e.instance, o, args);
        assert Stored(m, e.original, e.args) == Meaning(events[..j], e.original, e.args);
      }
    }
  }

  /** Two stores under equal arguments, which no run of instantiations makes: the destruction of the first
      instance evicts the second, and that of the second then looks for a table that is gone. */
  method StaleEntryEvicts(original: nat, args: Args, first: nat, second: nat) returns (cache: Cache)
    requires first != second
    ensures fresh(cache)
    ensures Stored(cache.model, original, args) == None
    ensures second in cache.lookup && cache.lookup[second].original !in cache.dir
  {
    hide Compare, Tabulates;
    cache := new Cache();
    PutStores(map[], original, args, first, original, args);
    cache.SetGenericCache(original, args, first);
    PutStores(cache.model, original, args, second, original, args);
    cache.SetGenericCache(original, args, second);
    cache.InvalidateGenericCache(first);
  }
}
