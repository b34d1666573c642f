/** Reachability in a finite graph given as a map from each node to the nodes it refers to. */
module Reachability {

  /** The nodes reached from s in at most n steps. */
  ghost function ReachIn<T>(g: map<T, set<T>>, s: set<T>, n: nat): set<T> {
    if n == 0 then s else
      ReachIn(g, s, n - 1) + set x, y | x in ReachIn(g, s, n - 1) && x in g && y in g[x] :: y
  }

  ghost predicate Reachable<T>(g: map<T, set<T>>, s: set<T>, o: T) {
    exists n: nat :: o in ReachIn(g, s, n)
  }

  ghost predicate Closed<T>(g: map<T, set<T>>, c: set<T>) {
    forall x, y :: x in c && x in g && y in g[x] ==> y in c
  }

  /** The nodes of the graph that are reachable from s. */
  ghost function ReachSet<T>(g: map<T, set<T>>, s: set<T>): set<T> {
    set o | o in g.Keys && Reachable(g, s, o)
  }

  /** The graph has a node for every source and for every successor. */
  ghost predicate Wf<T>(g: map<T, set<T>>, s: set<T>) {
    && s <= g.Keys
    && (forall x, y :: x in g && y in g[x] ==> y in g)
  }

  lemma {:induction false} ReachInWithin<T>(g: map<T, set<T>>, s: set<T>, c: set<T>, n: nat)
    requires s <= c && Closed(g, c)
    ensures ReachIn(g, s, n) <= c
  {
    if n > 0 {
      ReachInWithin(g, s, c, n - 1);
    }
  }

  /** The reachable set is closed, holds the sources, and is the least such set. */
  lemma ReachSetIsLeast<T>(g: map<T, set<T>>, s: set<T>)
    requires Wf(g, s)
    ensures s <= ReachSet(g, s) && Closed(g, ReachSet(g, s))
    ensures forall c :: s <= c && Closed(g, c) ==> ReachSet(g, s) <= c
  {
    assert ReachIn(g, s, 0) == s;
    forall x, y | x in ReachSet(g, s) && x in g && y in g[x]
      ensures y in ReachSet(g, s)
    {
      var n: nat :| x in ReachIn(g, s, n);
      assert y in ReachIn(g, s, n + 1);
    }
    forall c | s <= c && Closed(g, c)
      ensures ReachSet(g, s) <= c
    {
      forall o | o in ReachSet(g, s)
        ensures o in c
      {
        var n: nat :| o in ReachIn(g, s, n);
        ReachInWithin(g, s, c, n);
      }
    }
  }

  lemma {:induction false} ReachInMonotone<T>(g: map<T, set<T>>, s: set<T>, t: set<T>, n: nat)
    requires s <= t
    ensures ReachIn(g, s, n) <= ReachIn(g, t, n)
  {
    if n > 0 {
      ReachInMonotone(g, s, t, n - 1);
    }
  }

  /** Whatever is reached is reached from one single source. */
  lemma {:induction false} ReachInFromOne<T>(g: map<T, set<T>>, s: set<T>, o: T, n: nat) returns (h: T)
    requires o in ReachIn(g, s, n)
    ensures h in s && o in ReachIn(g, {h}, n)
  {
    if n == 0 {
      h := o;
    } else if o in ReachIn(g, s, n - 1) {
      h := ReachInFromOne(g, s, o, n - 1);
    } else {
      var x :| x in ReachIn(g, s, n - 1) && x in g && o in g[x];
      h := ReachInFromOne(g, s, x, n - 1);
    }
  }

  lemma ReachFromOne<T>(g: map<T, set<T>>, s: set<T>, o: T)
    ensures o in ReachSet(g, s) <==> exists h :: h in s && o in ReachSet(g, {h})
  {
    if o in ReachSet(g, s) {
      var n: nat :| o in ReachIn(g, s, n);
      var h := ReachInFromOne(g, s, o, n);
      assert Reachable(g, {h}, o);
    }
    forall h | h in s && o in ReachSet(g, {h})
      ensures o in ReachSet(g, s)
    {
      var n: nat :| o in ReachIn(g, {h}, n);
      ReachInMonotone(g, {h}, s, n);
    }
  }
}
