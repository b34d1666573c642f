/** Loading a module with all that it imports (slake/loader/loader.cc). */
module Imports {

  type Path = seq<string>

  /** A module file: the name it registers under and what it imports. */
  datatype Image = Image(fullName: Path, imports: set<Path>)

  /** What the namespace tree holds at a path. */
  datatype Entry = Namespace | Module(imports: set<Path>)

  type Tree = map<Path, Entry>

  type Repository = map<Path, Image>

  datatype Result = Loaded | NotFound

  ghost predicate ProperPrefix(p: Path, q: Path) {
    0 < |p| < |q| && p == q[..|p|]
  }

  /** The tree with the module added: parents that are not there become namespaces. */
  ghost predicate Registered(before: Tree, after: Tree, img: Image) {
    && (forall p :: p in before && p != img.fullName ==> p in after && after[p] == before[p])
    && img.fullName in after && after[img.fullName] == Module(img.imports)
    && (forall p :: p in after && p !in before && p != img.fullName ==>
          ProperPrefix(p, img.fullName) && after[p] == Namespace)
    && (forall p :: ProperPrefix(p, img.fullName) ==> p in after)
  }

  ghost function Parents(name: Path): set<Path> {
    set i | 0 < i < |name| :: name[..i]
  }

  /** The tree once the module is loaded. */
  ghost function Added(t: Tree, img: Image): Tree {
    map p | p in t.Keys + Parents(img.fullName) + {img.fullName} ::
      if p == img.fullName then Module(img.imports) else if p in t then t[p] else Namespace
  }

  lemma AddedRegistered(t: Tree, img: Image)
    ensures Registered(t, Added(t, img), img)
  {
    forall p | ProperPrefix(p, img.fullName)
      ensures p in Added(t, img)
    {
      assert p == img.fullName[..|p|];
    }
  }

  // ----- What a module needs

  /** A way of imports from a module to another path: each step but the last is a module that has yet to be
      loaded. */
  ghost predicate Way(repo: Repository, t: Tree, imports: set<Path>, w: seq<Path>) {
    && w != [] && w[0] in imports
    && (forall i :: 0 <= i < |w| - 1 ==> w[i] !in t && w[i] in repo && w[i + 1] in repo[w[i]].imports)
  }

  ghost predicate Needs(repo: Repository, t: Tree, imports: set<Path>, p: Path) {
    exists w :: Way(repo, t, imports, w) && w[|w| - 1] == p
  }

  lemma NeedsNext(repo: Repository, t: Tree, imports: set<Path>, p: Path, q: Path)
    requires Needs(repo, t, imports, p) && p !in t && p in repo && q in repo[p].imports
    ensures Needs(repo, t, imports, q)
  {
    var w :| Way(repo, t, imports, w) && w[|w| - 1] == p;
    WayOn(repo, t, imports, w, q);
    hide Way;
    assert (w + [q])[|w + [q]| - 1] == q;
  }

  lemma NeedsFirst(repo: Repository, t: Tree, imports: set<Path>, p: Path)
    requires p in imports
    ensures Needs(repo, t, imports, p)
  {
    assert Way(repo, t, imports, [p]) && [p][|[p]| - 1] == p;
  }

  /** Every module file registers under the path it is imported by. */
  ghost predicate OwnNames(repo: Repository) {
    forall p :: p in repo ==> repo[p].fullName == p && p != []
  }

  // ----- How far away a module is

  /** The length of a shortest way to a needed path: the round in which it is looked up. */
  ghost function Distance(repo: Repository, t: Tree, imports: set<Path>, p: Path): (n: nat)
    requires Needs(repo, t, imports, p)
    ensures exists w :: Way(repo, t, imports, w) && w[|w| - 1] == p && |w| == n
    ensures forall w :: Way(repo, t, imports, w) && w[|w| - 1] == p ==> n <= |w|
  {
    var w :| Way(repo, t, imports, w) && w[|w| - 1] == p;
    ShortestFrom(repo, t, imports, w)
  }

  ghost function ShortestFrom(repo: Repository, t: Tree, imports: set<Path>, w: seq<Path>): (n: nat)
    requires Way(repo, t, imports, w)
    ensures exists v :: Way(repo, t, imports, v) && v[|v| - 1] == w[|w| - 1] && |v| == n
    ensures forall v :: Way(repo, t, imports, v) && v[|v| - 1] == w[|w| - 1] ==> n <= |v|
    decreases |w|
  {
    if exists v :: Way(repo, t, imports, v) && v[|v| - 1] == w[|w| - 1] && |v| < |w| then
      var v :| Way(repo, t, imports, v) && v[|v| - 1] == w[|w| - 1] && |v| < |w|;
      ShortestFrom(repo, t, imports, v)
    else |w|
  }

  /** At distance 1 are the imports of the first module, and nothing is closer. */
  lemma FirstDistance(repo: Repository, t: Tree, imports: set<Path>, p: Path)
    requires Needs(repo, t, imports, p)
    ensures Distance(repo, t, imports, p) >= 1
    ensures Distance(repo, t, imports, p) == 1 <==> p in imports
  {
    hide ShortestFrom, Needs;
    if p in imports {
      assert Way(repo, t, imports, [p]) && [p][|[p]| - 1] == p;
    }
  }

  /** The imports of a missing module are at most one further away than it. */
  lemma NextDistance(repo: Repository, t: Tree, imports: set<Path>, x: Path, p: Path)
    requires Needs(repo, t, imports, x) && x !in t && x in repo && p in repo[x].imports
    ensures Needs(repo, t, imports, p) && Distance(repo, t, imports, p) <= Distance(repo, t, imports, x) + 1
  {
    NeedsNext(repo, t, imports, x, p);
    hide Distance, Needs, ShortestFrom;
    var n := Distance(repo, t, imports, x);
    var w :| Way(repo, t, imports, w) && w[|w| - 1] == x && |w| == n;
    WayOn(repo, t, imports, w, p);
    hide Way;
    assert (w + [p])[|w + [p]| - 1] == p;
  }

  lemma WayOn(repo: Repository, t: Tree, imports: set<Path>, w: seq<Path>, p: Path)
    requires Way(repo, t, imports, w)
    requires var x := w[|w| - 1]; x !in t && x in repo && p in repo[x].imports
    ensures Way(repo, t, imports, w + [p])
  {
    assert forall i :: 0 <= i < |w| ==> (w + [p])[i] == w[i];
  }

  /** What is further away is an import of a missing module one less far away. */
  lemma Predecessor(repo: Repository, t: Tree, imports: set<Path>, p: Path) returns (x: Path)
    requires Needs(repo, t, imports, p) && Distance(repo, t, imports, p) > 1
    ensures Needs(repo, t, imports, x) && x !in t && x in repo && p in repo[x].imports
    ensures Distance(repo, t, imports, x) + 1 == Distance(repo, t, imports, p)
  {
    var n := Distance(repo, t, imports, p);
    var w :| Way(repo, t, imports, w) && w[|w| - 1] == p && |w| == n;
    hide ShortestFrom;
    var v := w[..n - 1];
    x := w[n - 2];
    assert w[(n - 2) + 1] in repo[w[n - 2]].imports;
    assert Way(repo, t, imports, v) && v[|v| - 1] == x;
    NextDistance(repo, t, imports, x, p);
  }

  /** No needed path is a namespace already. */
  ghost predicate NoneNamespace(repo: Repository, t: Tree, imports: set<Path>) {
    forall p :: Needs(repo, t, imports, p) && p in t ==> t[p].Module?
  }

  /** No needed and missing path is made a namespace by a module inside it that is looked up in an earlier
      round. */
  ghost predicate NoneHidden(repo: Repository, t: Tree, imports: set<Path>) {
    forall p, q :: Needs(repo, t, imports, p) && p !in t && Hides(repo, t, imports, p, q) ==>
      Distance(repo, t, imports, p) <= Distance(repo, t, imports, q)
  }

  /** Locating q registers p, one of its parents. */
  ghost predicate Hides(repo: Repository, t: Tree, imports: set<Path>, p: Path, q: Path) {
    Needs(repo, t, imports, q) && q !in t && q in repo && ProperPrefix(p, q)
  }

  /** Loaded modules other than start have all their imports loaded. */
  ghost predicate ClosedBut(t: Tree, start: Path) {
    forall p, q :: p in t && t[p].Module? && p != start && q in t[p].imports ==> q in t && t[q].Module?
  }

  // ----- The state of a load

  ghost predicate NoRepeats(s: seq<Path>) {
    forall i, j :: 0 <= i < j < |s| ==> s[i] != s[j]
  }

  /** x is imported by the first module or by one of log. */
  ghost predicate Wanted(repo: Repository, start: Image, log: seq<Path>, x: Path) {
    x in start.imports || exists y :: y in log && y in repo && x in repo[y].imports
  }

  /** Each module was located for an import of those before it, and when none of them was inside it. */
  ghost predicate InOrder(repo: Repository, start: Image, log: seq<Path>) {
    forall i :: 0 <= i < |log| ==> Wanted(repo, start, log[..i], log[i]) && NoParent(log[i], log[..i])
  }

  ghost predicate NoParent(p: Path, log: seq<Path>) {
    forall x :: x in log ==> !ProperPrefix(p, x)
  }

  ghost predicate Ordered(repo: Repository, start: Image, t: Tree, log: seq<Path>, todo: set<Path>) {
    && InOrder(repo, start, log)
    && (forall x :: x in todo ==> Wanted(repo, start, log, x))
    && (forall x, p :: x in log && ProperPrefix(p, x) ==> p in t)
  }

  /** t0 is the tree once the first module is loaded; log lists the modules located since; todo is what is
      still to be looked up. */
  ghost predicate Loading(repo: Repository, t0: Tree, start: Image, t: Tree, log: seq<Path>, todo: set<Path>) {
    && (forall p :: p in t0 ==> p in t && t[p] == t0[p])
    && (forall p :: p in log ==>
          Needs(repo, t0, start.imports, p) && p !in t0 && p in repo && p in t && t[p] == Module(repo[p].imports))
    && (forall p :: p in t && p !in t0 && p !in log ==> t[p] == Namespace && exists q :: q in log && ProperPrefix(p, q))
    && NoRepeats(log) && Ordered(repo, start, t, log, todo)
    && (forall p :: p in todo ==> Needs(repo, t0, start.imports, p))
    && (forall q :: q in start.imports ==> q in t || q in todo)
    && (forall p, q :: p in log && q in repo[p].imports ==> q in t || q in todo)
  }

  lemma WayNeeds(repo: Repository, t: Tree, imports: set<Path>, w: seq<Path>)
    requires Way(repo, t, imports, w)
    ensures Needs(repo, t, imports, w[|w| - 1])
  {
  }

  // ----- Rounds by distance

  /** Nothing that is needed and was missing has become a mere namespace. */
  ghost predicate Shown(repo: Repository, t0: Tree, start: Image, t: Tree, log: seq<Path>) {
    forall p :: Needs(repo, t0, start.imports, p) && p !in t0 && p in t ==> p in log
  }

  ghost predicate AtMost(repo: Repository, t0: Tree, start: Image, paths: set<Path>, k: nat) {
    forall p :: p in paths ==> Needs(repo, t0, start.imports, p) && Distance(repo, t0, start.imports, p) <= k
  }

  /** Located in the order of distances, none of them further away than k. */
  ghost predicate ByDistance(repo: Repository, t0: Tree, start: Image, log: seq<Path>, k: nat) {
    && (forall i :: 0 <= i < |log| ==>
          Needs(repo, t0, start.imports, log[i]) && Distance(repo, t0, start.imports, log[i]) <= k)
    && (forall i, j :: 0 <= i < j < |log| ==>
          Distance(repo, t0, start.imports, log[i]) <= Distance(repo, t0, start.imports, log[j]))
  }

  /** What is closer than k has been located, and what is at distance k has been or is among rest. */
  ghost predicate Reached(repo: Repository, t0: Tree, start: Image, log: seq<Path>, k: nat, rest: set<Path>) {
    forall p :: Needs(repo, t0, start.imports, p) && p !in t0 && Distance(repo, t0, start.imports, p) <= k ==>
      p in log || (Distance(repo, t0, start.imports, p) == k && p in rest)
  }

  ghost predicate AtDistance(repo: Repository, t0: Tree, start: Image, p: Path, k: nat) {
    Needs(repo, t0, start.imports, p) && Distance(repo, t0, start.imports, p) == k
  }

  /** next has what the modules located at distance k import. */
  ghost predicate Collected(repo: Repository, t0: Tree, start: Image, log: seq<Path>, k: nat, next: set<Path>) {
    forall x, q :: x in log && x in repo && q in repo[x].imports && AtDistance(repo, t0, start, x, k) ==> q in next
  }

  /** In round k, with rest the names left and next those collected for the next round. */
  ghost predicate Layered(repo: Repository, t0: Tree, start: Image, log: seq<Path>, k: nat, rest: set<Path>,
                          next: set<Path>) {
    && ByDistance(repo, t0, start, log, k) && AtMost(repo, t0, start, rest, k) && AtMost(repo, t0, start, next, k + 1)
    && Reached(repo, t0, start, log, k, rest) && Collected(repo, t0, start, log, k, next)
  }

  /** How far round k has come, unless a needed path has been hidden. */
  ghost predicate InRound(repo: Repository, t0: Tree, start: Image, t: Tree, log: seq<Path>, k: nat,
                          rest: set<Path>, next: set<Path>) {
    if Shown(repo, t0, start, t, log) then Layered(repo, t0, start, log, k, rest, next)
    else !NoneHidden(repo, t0, start.imports)
  }

  lemma FirstRound(repo: Repository, t0: Tree, start: Image)
    ensures InRound(repo, t0, start, t0, [], 1, start.imports, {})
  {
    hide Distance, Needs, NoneHidden;
    forall p | Needs(repo, t0, start.imports, p)
      ensures Distance(repo, t0, start.imports, p) >= 1
      ensures Distance(repo, t0, start.imports, p) == 1 <==> p in start.imports
    {
      FirstDistance(repo, t0, start.imports, p);
    }
    forall p | p in start.imports
      ensures Needs(repo, t0, start.imports, p)
    {
      NeedsFirst(repo, t0, start.imports, p);
    }
  }

  /** Round k + 1 looks up what round k has collected. */
  lemma NextRound(repo: Repository, t0: Tree, start: Image, t: Tree, log: seq<Path>, k: nat, next: set<Path>)
    requires k >= 1 && InRound(repo, t0, start, t, log, k, {}, next)
    ensures InRound(repo, t0, start, t, log, k + 1, next, {})
  {
    if Shown(repo, t0, start, t, log) {
      AllNextReached(repo, t0, start, log, k, next);
      NothingCollected(repo, t0, start, log, k);
      hide Distance, Needs, Reached, Collected;
      assert ByDistance(repo, t0, start, log, k + 1);
    }
    hide Shown, Layered, NoneHidden;
  }

  lemma AllNextReached(repo: Repository, t0: Tree, start: Image, log: seq<Path>, k: nat, next: set<Path>)
    requires k >= 1 && Reached(repo, t0, start, log, k, {}) && Collected(repo, t0, start, log, k, next)
    ensures Reached(repo, t0, start, log, k + 1, next)
  {
    hide Distance, Needs;
    forall p | Needs(repo, t0, start.imports, p) && p !in t0 && Distance(repo, t0, start.imports, p) == k + 1
      ensures p in next
    {
      NextReached(repo, t0, start, log, k, next, p);
    }
    hide Collected;
  }

  lemma NextReached(repo: Repository, t0: Tree, start: Image, log: seq<Path>, k: nat, next: set<Path>, p: Path)
    requires k >= 1 && Reached(repo, t0, start, log, k, {}) && Collected(repo, t0, start, log, k, next)
    requires Needs(repo, t0, start.imports, p) && Distance(repo, t0, start.imports, p) == k + 1
    ensures p in next
  {
    hide Distance, Needs;
    var x := Predecessor(repo, t0, start.imports, p);
    assert AtDistance(repo, t0, start, x, k) && x in log;
  }

  lemma NothingCollected(repo: Repository, t0: Tree, start: Image, log: seq<Path>, k: nat)
    requires ByDistance(repo, t0, start, log, k)
    ensures Collected(repo, t0, start, log, k + 1, {})
  {
    hide Distance, Needs;
  }

  /** In a round in which nothing has been hidden yet, a name that is not there is at the distance of the round. */
  lemma AtRound(repo: Repository, t0: Tree, start: Image, log: seq<Path>, k: nat, rest: set<Path>, next: set<Path>,
                p: Path)
    requires Layered(repo, t0, start, log, k, rest, next) && p in rest && p !in t0 && p !in log
    ensures Needs(repo, t0, start.imports, p) && Distance(repo, t0, start.imports, p) == k
  {
    hide Distance, Needs, Collected, ByDistance;
  }

  lemma SkippedInRound(repo: Repository, t0: Tree, start: Image, t: Tree, log: seq<Path>, k: nat, rest: set<Path>,
                       next: set<Path>, p: Path)
    requires InRound(repo, t0, start, t, log, k, rest, next) && p in t
    ensures InRound(repo, t0, start, t, log, k, rest - {p}, next)
  {
    hide Distance, Needs, NoneHidden;
  }

  /** Locating the shortest name left: it hides nothing of this round or of those before. */
  lemma LocatedInRound(repo: Repository, t0: Tree, start: Image, t: Tree, log: seq<Path>, todo: set<Path>, k: nat,
                       rest: set<Path>, next: set<Path>, p: Path, after: Tree)
    requires Loading(repo, t0, start, t, log, todo) && InRound(repo, t0, start, t, log, k, rest, next)
    requires p in rest && (forall q :: q in rest ==> |p| <= |q|)
    requires p !in t && p in repo && repo[p].fullName == p && Registered(t, after, repo[p])
    ensures InRound(repo, t0, start, after, log + [p], k, rest - {p}, next + repo[p].imports)
  {
    StaysHidden(repo, t0, start, t, log, p, after);
    if Shown(repo, t0, start, t, log) {
      NotYet(repo, t0, start, t, log, todo, p);
      AtRound(repo, t0, start, log, k, rest, next, p);
      if Shown(repo, t0, start, after, log + [p]) {
        hide Loading, Registered, NoneHidden, Shown;
        LayerGrows(repo, t0, start, log, k, rest, next, p);
        hide Layered;
      } else {
        hide Loading, InRound;
        IsHidden(repo, t0, start, t, log, k, rest, next, p, after);
      }
    }
    hide *;
  }

  lemma NotYet(repo: Repository, t0: Tree, start: Image, t: Tree, log: seq<Path>, todo: set<Path>, p: Path)
    requires Loading(repo, t0, start, t, log, todo) && p !in t
    ensures p !in t0 && p !in log
  {
    hide Needs, NoRepeats, ProperPrefix, Ordered;
  }

  lemma StaysHidden(repo: Repository, t0: Tree, start: Image, t: Tree, log: seq<Path>, p: Path, after: Tree)
    requires p !in t && p in repo && repo[p].fullName == p && Registered(t, after, repo[p])
    ensures Shown(repo, t0, start, after, log + [p]) ==> Shown(repo, t0, start, t, log)
  {
    hide Needs, ProperPrefix;
  }

  lemma LayerGrows(repo: Repository, t0: Tree, start: Image, log: seq<Path>, k: nat, rest: set<Path>, next: set<Path>,
                   p: Path)
    requires Layered(repo, t0, start, log, k, rest, next) && p in rest && p in repo && p !in t0
    requires Needs(repo, t0, start.imports, p) && Distance(repo, t0, start.imports, p) == k
    ensures Layered(repo, t0, start, log + [p], k, rest - {p}, next + repo[p].imports)
  {
    hide Distance, Needs, ByDistance, Reached, Collected;
    FurtherByOne(repo, t0, start, p, k);
    DistancesGrow(repo, t0, start, log, k, p);
    LayersGrow(repo, t0, start, log, k, rest, next, p);
  }

  lemma LayersGrow(repo: Repository, t0: Tree, start: Image, log: seq<Path>, k: nat, rest: set<Path>, next: set<Path>,
                   p: Path)
    requires Reached(repo, t0, start, log, k, rest) && Collected(repo, t0, start, log, k, next) && p in repo
    ensures Reached(repo, t0, start, log + [p], k, rest - {p})
    ensures Collected(repo, t0, start, log + [p], k, next + repo[p].imports)
  {
    hide Distance, Needs, AtDistance;
    assert p in log + [p] && forall x :: x in log ==> x in log + [p];
  }

  lemma FurtherByOne(repo: Repository, t0: Tree, start: Image, p: Path, k: nat)
    requires Needs(repo, t0, start.imports, p) && Distance(repo, t0, start.imports, p) == k && p in repo && p !in t0
    ensures AtMost(repo, t0, start, repo[p].imports, k + 1)
  {
    hide Distance, Needs;
    forall q | q in repo[p].imports
      ensures Needs(repo, t0, start.imports, q) && Distance(repo, t0, start.imports, q) <= k + 1
    {
      NextDistance(repo, t0, start.imports, p, q);
    }
  }

  lemma DistancesGrow(repo: Repository, t0: Tree, start: Image, log: seq<Path>, k: nat, p: Path)
    requires ByDistance(repo, t0, start, log, k)
    requires Needs(repo, t0, start.imports, p) && Distance(repo, t0, start.imports, p) == k
    ensures ByDistance(repo, t0, start, log + [p], k)
  {
    hide Distance, Needs;
  }

  /** What p hides is further away. */
  lemma IsHidden(repo: Repository, t0: Tree, start: Image, t: Tree, log: seq<Path>, k: nat, rest: set<Path>,
                 next: set<Path>, p: Path, after: Tree)
    requires Shown(repo, t0, start, t, log) && Layered(repo, t0, start, log, k, rest, next)
    requires p in rest && (forall q :: q in rest ==> |p| <= |q|) && p !in t && p !in t0 && p in repo
    requires repo[p].fullName == p && Registered(t, after, repo[p])
    requires Needs(repo, t0, start.imports, p) && Distance(repo, t0, start.imports, p) == k
    requires !Shown(repo, t0, start, after, log + [p])
    ensures !NoneHidden(repo, t0, start.imports)
  {
    hide Distance, Needs;
    var x :| Needs(repo, t0, start.imports, x) && x !in t0 && x in after && x !in log + [p];
    assert x !in log && x != p && x !in t && ProperPrefix(x, p);
    assert x !in rest;
    assert Hides(repo, t0, start.imports, x, p);
  }

  // ----- The end of a load

  /** The end of a way is there when nothing is left to be looked up and nothing has been hidden. */
  lemma {:induction false} WayLoaded(repo: Repository, t0: Tree, start: Image, t: Tree, log: seq<Path>, w: seq<Path>)
    requires Loading(repo, t0, start, t, log, {}) && Shown(repo, t0, start, t, log)
    requires Way(repo, t0, start.imports, w)
    ensures w[|w| - 1] in t && (w[|w| - 1] in t0 || w[|w| - 1] in log)
    decreases |w|
  {
    hide Needs, NoRepeats, ProperPrefix, Ordered;
    var (n, p) := (|w| - 1, w[|w| - 1]);
    WayNeeds(repo, t0, start.imports, w);
    if n > 0 {
      var v := w[..n];
      assert Way(repo, t0, start.imports, v);
      WayLoaded(repo, t0, start, t, log, v);
      assert v[|v| - 1] == w[n - 1] && w[n - 1] in log && w[(n - 1) + 1] in repo[w[n - 1]].imports;
    }
    assert p in t;
  }

  /** What has been located is exactly what was needed and missing. */
  ghost predicate LocatedAll(repo: Repository, t0: Tree, start: Image, log: seq<Path>) {
    forall p :: p in log <==> Needs(repo, t0, start.imports, p) && p !in t0
  }

  /** When nothing is left, nothing has been hidden exactly when all that was needed and missing has been
      located. */
  lemma ShownExactly(repo: Repository, t0: Tree, start: Image, t: Tree, log: seq<Path>)
    requires Loading(repo, t0, start, t, log, {})
    ensures Shown(repo, t0, start, t, log) <==> LocatedAll(repo, t0, start, log)
  {
    hide NoRepeats, ProperPrefix, Ordered;
    if Shown(repo, t0, start, t, log) {
      forall p | Needs(repo, t0, start.imports, p) && p !in t0
        ensures p in log
      {
        var w :| Way(repo, t0, start.imports, w) && w[|w| - 1] == p;
        WayLoaded(repo, t0, start, t, log, w);
      }
    }
    hide Needs;
  }

  lemma LaterNoParent(repo: Repository, start: Image, log: seq<Path>, j: nat, i: nat)
    requires InOrder(repo, start, log) && j < i < |log|
    ensures !ProperPrefix(log[i], log[j])
  {
    hide ProperPrefix, Wanted;
    assert NoParent(log[i], log[..i]) && log[..i][j] == log[j];
  }

  lemma LocatedBefore(repo: Repository, t0: Tree, start: Image, log: seq<Path>, k: nat, p: Path, q: Path)
    requires InOrder(repo, start, log) && ByDistance(repo, t0, start, log, k) && p in log && q in log
    requires ProperPrefix(p, q)
    ensures Needs(repo, t0, start.imports, p) && Needs(repo, t0, start.imports, q)
    ensures Distance(repo, t0, start.imports, p) <= Distance(repo, t0, start.imports, q)
  {
    hide Distance, Needs, InOrder, ProperPrefix;
    var i :| 0 <= i < |log| && log[i] == p;
    var j :| 0 <= j < |log| && log[j] == q;
    if j < i {
      LaterNoParent(repo, start, log, j, i);
    }
  }

  /** Then, too, nothing is hidden by anything closer. */
  lemma LocatedMeansNoneHidden(repo: Repository, t0: Tree, start: Image, log: seq<Path>, k: nat)
    requires LocatedAll(repo, t0, start, log) && InOrder(repo, start, log) && ByDistance(repo, t0, start, log, k)
    ensures NoneHidden(repo, t0, start.imports)
  {
    hide Distance, Needs, InOrder, ProperPrefix, ByDistance;
    forall p, q | Needs(repo, t0, start.imports, p) && p !in t0 && Hides(repo, t0, start.imports, p, q)
      ensures Distance(repo, t0, start.imports, p) <= Distance(repo, t0, start.imports, q)
    {
      LocatedBefore(repo, t0, start, log, k, p, q);
    }
  }

  /** All that is needed and missing is located exactly when none of it is hidden. */
  lemma LocatedExactly(repo: Repository, t0: Tree, start: Image, t: Tree, log: seq<Path>, k: nat)
    requires Loading(repo, t0, start, t, log, {}) && InRound(repo, t0, start, t, log, k, {}, {})
    ensures LocatedAll(repo, t0, start, log) <==> NoneHidden(repo, t0, start.imports)
  {
    ShownExactly(repo, t0, start, t, log);
    if Shown(repo, t0, start, t, log) {
      LocatedMeansNoneHidden(repo, t0, start, log, k);
    }
    hide Needs, Distance, LocatedAll, Shown, NoneHidden;
  }

  /** Every needed path was a module before or has been located. */
  ghost predicate AllModules(repo: Repository, t0: Tree, start: Image, log: seq<Path>) {
    forall p :: Needs(repo, t0, start.imports, p) ==> (p in t0 && t0[p].Module?) || p in log
  }

  lemma {:induction false} WayInClosed(repo: Repository, t0: Tree, start: Image, t: Tree, log: seq<Path>, w: seq<Path>)
    requires Loading(repo, t0, start, t, log, {}) && ClosedModules(t) && Way(repo, t0, start.imports, w)
    requires start.fullName in t0 && t0[start.fullName] == Module(start.imports)
    ensures var p := w[|w| - 1]; p in t && t[p].Module? && ((p in t0 && t0[p].Module?) || p in log)
    decreases |w|
  {
    hide Needs, NoRepeats, ProperPrefix, Ordered;
    var (n, p) := (|w| - 1, w[|w| - 1]);
    if n == 0 {
      assert p in t[start.fullName].imports;
    } else {
      var v := w[..n];
      assert Way(repo, t0, start.imports, v);
      WayInClosed(repo, t0, start, t, log, v);
      assert v[|v| - 1] == w[n - 1] && w[n - 1] in log && w[(n - 1) + 1] in repo[w[n - 1]].imports;
      assert p in t[w[n - 1]].imports;
    }
  }

  /** After a load that ends, every import of a module is a module exactly when no needed path was a namespace
      before, and none that was missing has been hidden by a module closer by. */
  lemma ClosedExactly(repo: Repository, t0: Tree, start: Image, t: Tree, log: seq<Path>, k: nat)
    requires Loading(repo, t0, start, t, log, {}) && InRound(repo, t0, start, t, log, k, {}, {})
    requires ClosedBut(t0, start.fullName) && start.fullName in t0 && t0[start.fullName] == Module(start.imports)
    ensures ClosedModules(t) <==> NoneNamespace(repo, t0, start.imports) && NoneHidden(repo, t0, start.imports)
  {
    LocatedExactly(repo, t0, start, t, log, k);
    hide *;
    if ClosedModules(t) {
      ClosedMeansLocated(repo, t0, start, t, log);
    }
    if NoneNamespace(repo, t0, start.imports) && LocatedAll(repo, t0, start, log) {
      LocatedMeansClosed(repo, t0, start, t, log);
    }
  }

  lemma ClosedMeansLocated(repo: Repository, t0: Tree, start: Image, t: Tree, log: seq<Path>)
    requires Loading(repo, t0, start, t, log, {}) && ClosedModules(t)
    requires start.fullName in t0 && t0[start.fullName] == Module(start.imports)
    ensures NoneNamespace(repo, t0, start.imports) && LocatedAll(repo, t0, start, log)
  {
    hide NoRepeats, ProperPrefix, Ordered, ClosedModules;
    forall p | Needs(repo, t0, start.imports, p)
      ensures (p in t0 && t0[p].Module?) || p in log
    {
      var w :| Way(repo, t0, start.imports, w) && w[|w| - 1] == p;
      WayInClosed(repo, t0, start, t, log, w);
    }
    hide Needs;
  }

  lemma LocatedMeansClosed(repo: Repository, t0: Tree, start: Image, t: Tree, log: seq<Path>)
    requires Loading(repo, t0, start, t, log, {})
    requires NoneNamespace(repo, t0, start.imports) && LocatedAll(repo, t0, start, log)
    requires ClosedBut(t0, start.fullName) && start.fullName in t0 && t0[start.fullName] == Module(start.imports)
    ensures ClosedModules(t)
  {
    AllLocatedModules(repo, t0, start, t, log);
    hide Loading, Needs, NoneNamespace, LocatedAll, AllModules, ClosedBut;
    forall p, q | p in t && t[p].Module? && q in t[p].imports
      ensures q in t && t[q].Module?
    {
      ImportIsModule(repo, t0, start, t, log, p, q);
    }
  }

  lemma AllLocatedModules(repo: Repository, t0: Tree, start: Image, t: Tree, log: seq<Path>)
    requires Loading(repo, t0, start, t, log, {})
    requires NoneNamespace(repo, t0, start.imports) && LocatedAll(repo, t0, start, log)
    ensures AllModules(repo, t0, start, log)
  {
    hide Needs, Loading;
  }

  lemma ImportIsModule(repo: Repository, t0: Tree, start: Image, t: Tree, log: seq<Path>, p: Path, q: Path)
    requires Loading(repo, t0, start, t, log, {}) && AllModules(repo, t0, start, log)
    requires ClosedBut(t0, start.fullName) && start.fullName in t0 && t0[start.fullName] == Module(start.imports)
    requires p in t && t[p].Module? && q in t[p].imports
    ensures q in t && t[q].Module?
  {
    hide NoRepeats, ProperPrefix, Ordered, Way;
    if p in log {
      NeedsNext(repo, t0, start.imports, p, q);
    } else if p == start.fullName {
      NeedsFirst(repo, t0, start.imports, q);
    }
    hide Needs;
  }

  lemma Begun(repo: Repository, t0: Tree, start: Image)
    ensures Loading(repo, t0, start, t0, [], start.imports)
  {
    assert InOrder(repo, start, []);
    forall p | p in start.imports
      ensures Needs(repo, t0, start.imports, p)
    {
      NeedsFirst(repo, t0, start.imports, p);
    }
  }

  /** A path that is there need not be looked up. */
  lemma Skipped(repo: Repository, t0: Tree, start: Image, t: Tree, log: seq<Path>, todo: set<Path>, p: Path)
    requires Loading(repo, t0, start, t, log, todo) && p in t
    ensures Loading(repo, t0, start, t, log, todo - {p})
  {
  }

  /** A path that is not there is located, and its imports are to be looked up. */
  lemma Located(repo: Repository, t0: Tree, start: Image, t: Tree, log: seq<Path>, todo: set<Path>, p: Path,
                after: Tree)
    requires Loading(repo, t0, start, t, log, todo) && OwnNames(repo)
    requires p in todo && p !in t && p in repo && Registered(t, after, repo[p])
    ensures Loading(repo, t0, start, after, log + [p], todo - {p} + repo[p].imports)
  {
    forall q | q in repo[p].imports
      ensures Needs(repo, t0, start.imports, q)
    {
      NeedsNext(repo, t0, start.imports, p, q);
    }
    hide Needs, ProperPrefix;
    var (l, more) := (log + [p], todo - {p} + repo[p].imports);
    LogKept(repo, t0, start, t, log, todo, p, after);
    LeftOver(repo, t0, start, t, log, todo, p, after);
    AllNeeded(repo, t0, start, t, log, todo, p);
    OrderedNext(repo, t0, start, t, log, todo, p, after);
    hide Loading, Registered, Ordered;
    Assembled(repo, t0, start, after, l, more);
  }

  lemma AllNeeded(repo: Repository, t0: Tree, start: Image, t: Tree, log: seq<Path>, todo: set<Path>, p: Path)
    requires Loading(repo, t0, start, t, log, todo) && p in todo && p !in t && p in repo
    requires forall q :: q in repo[p].imports ==> Needs(repo, t0, start.imports, q)
    ensures forall q :: q in log + [p] ==> Needs(repo, t0, start.imports, q) && q !in t0
    ensures forall q :: q in todo - {p} + repo[p].imports ==> Needs(repo, t0, start.imports, q)
    ensures NoRepeats(log + [p])
  {
    hide Needs;
  }

  lemma OrderedNext(repo: Repository, t0: Tree, start: Image, t: Tree, log: seq<Path>, todo: set<Path>, p: Path,
                    after: Tree)
    requires Loading(repo, t0, start, t, log, todo) && p in todo && p !in t && p in repo && repo[p].fullName == p
    requires Registered(t, after, repo[p])
    ensures Ordered(repo, start, after, log + [p], todo - {p} + repo[p].imports)
  {
    hide Needs, ProperPrefix;
    var l := log + [p];
    assert l[..|log|] == log && p in l;
    forall i | 0 <= i < |l|
      ensures Wanted(repo, start, l[..i], l[i]) && NoParent(l[i], l[..i])
    {
      if i < |log| {
        assert l[..i] == log[..i] && l[i] == log[i];
      } else {
        assert forall x :: x in log && ProperPrefix(p, x) ==> p in t;
      }
    }
    forall x | x in todo - {p} + repo[p].imports
      ensures Wanted(repo, start, l, x)
    {
      if x !in repo[p].imports {
        WantedStill(repo, start, log, p, x);
      }
    }
  }

  lemma WantedStill(repo: Repository, start: Image, log: seq<Path>, p: Path, x: Path)
    requires Wanted(repo, start, log, x)
    ensures Wanted(repo, start, log + [p], x)
  {
    if x !in start.imports {
      var y :| y in log && y in repo && x in repo[y].imports;
      assert y in log + [p];
    }
  }

  lemma Assembled(repo: Repository, t0: Tree, start: Image, t: Tree, log: seq<Path>, todo: set<Path>)
    requires forall p :: p in t0 ==> p in t && t[p] == t0[p]
    requires forall q :: q in log ==> Needs(repo, t0, start.imports, q) && q !in t0
    requires forall x :: x in log ==> x in repo && x in t && t[x] == Module(repo[x].imports)
    requires forall x :: x in t && x !in t0 && x !in log ==> t[x] == Namespace && exists q ::
              q in log && ProperPrefix(x, q)
    requires NoRepeats(log) && Ordered(repo, start, t, log, todo)
    requires forall q :: q in todo ==> Needs(repo, t0, start.imports, q)
    requires forall q :: q in start.imports ==> q in t || q in todo
    requires forall x, q :: x in log && x in repo && q in repo[x].imports ==> q in t || q in todo
    ensures Loading(repo, t0, start, t, log, todo)
  {
    hide Needs, NoRepeats, ProperPrefix, InOrder, Wanted;
  }

  lemma LogKept(repo: Repository, t0: Tree, start: Image, t: Tree, log: seq<Path>, todo: set<Path>, p: Path,
                after: Tree)
    requires Loading(repo, t0, start, t, log, todo) && repo.Keys >= {p} && repo[p].fullName == p
    requires p in todo && p !in t && Registered(t, after, repo[p])
    ensures p !in log && p !in t0
    ensures forall x :: x in t0 ==> x in after && after[x] == t0[x]
    ensures forall x :: x in log + [p] ==> x in repo && x in after && after[x] == Module(repo[x].imports)
    ensures forall x :: x in after && x !in t0 && x !in log + [p] ==>
              after[x] == Namespace && exists q :: q in log + [p] && ProperPrefix(x, q)
  {
    hide Needs, ProperPrefix;
    assert p in log + [p];
    forall x | x in after && x !in t0 && x !in log + [p]
      ensures after[x] == Namespace && exists q :: q in log + [p] && ProperPrefix(x, q)
    {
      assert x != p && x !in log;
      if x in t {
        var q :| q in log && ProperPrefix(x, q);
        assert q in log + [p];
      } else {
        assert ProperPrefix(x, p);
      }
    }
  }

  lemma LeftOver(repo: Repository, t0: Tree, start: Image, t: Tree, log: seq<Path>, todo: set<Path>, p: Path,
                 after: Tree)
    requires Loading(repo, t0, start, t, log, todo) && p in repo && repo[p].fullName == p
    requires p !in t && Registered(t, after, repo[p])
    ensures forall q :: q in start.imports ==> q in after || q in todo - {p} + repo[p].imports
    ensures forall x, q :: x in log + [p] && x in repo && q in repo[x].imports ==>
              q in after || q in todo - {p} + repo[p].imports
  {
    hide Needs, ProperPrefix;
    assert forall q :: q in t ==> q in after;
    forall x, q | x in log + [p] && x in repo && q in repo[x].imports
      ensures q in after || q in todo - {p} + repo[p].imports
    {
      assert x == p || x in log;
    }
  }

  lemma MoreTodo(repo: Repository, t0: Tree, start: Image, t: Tree, log: seq<Path>, todo: set<Path>, p: Path,
                 more: set<Path>)
    requires Loading(repo, t0, start, t, log, todo) && Needs(repo, t0, start.imports, p) && todo <= more <= todo + {p}
    requires Wanted(repo, start, log, p)
    ensures Loading(repo, t0, start, t, log, more)
  {
    hide Needs, NoRepeats, ProperPrefix, InOrder, Wanted;
  }

  lemma TodoNeeded(repo: Repository, t0: Tree, start: Image, t: Tree, log: seq<Path>, todo: set<Path>, p: Path)
    requires Loading(repo, t0, start, t, log, todo) && p in todo
    ensures Needs(repo, t0, start.imports, p) && (p !in t ==> p !in t0) && Wanted(repo, start, log, p)
  {
    hide Needs, NoRepeats, ProperPrefix, InOrder, Wanted;
  }

  /** Something that is needed cannot be found. */
  ghost predicate Lacks(repo: Repository, t: Tree, imports: set<Path>) {
    exists p :: Needs(repo, t, imports, p) && p !in t && p !in repo
  }

  /** Every module has its imports. */
  ghost predicate ClosedModules(t: Tree) {
    forall p, q :: p in t && t[p].Module? && q in t[p].imports ==> q in t && t[q].Module?
  }

  lemma StartsClosed(t: Tree, img: Image)
    requires img.fullName !in t
    ensures ClosedModules(t) ==> ClosedBut(Added(t, img), img.fullName)
    ensures img.fullName in Added(t, img) && Added(t, img)[img.fullName] == Module(img.imports)
  {
  }

  // ----- Looking up one name after the other

  /** The tree, the names left of a round, and those collected for the next one. */
  datatype Search = Search(tree: Tree, rest: set<Path>, next: set<Path>)

  /** Looking up one of the names left. */
  ghost function LookUp(repo: Repository, s: Search, p: Path): Search {
    if p in s.tree || p !in repo then s.(rest := s.rest - {p})
    else Search(Added(s.tree, repo[p]), s.rest - {p}, s.next + repo[p].imports)
  }

  /** When a round is over the next one begins. */
  ghost function Turn(s: Search): Search {
    if s.rest == {} then Search(s.tree, s.next, {}) else s
  }

  /** Looking up the names of order, one after the other and round after round. */
  ghost function After(repo: Repository, s: Search, order: seq<Path>): Search {
    if order == [] then s
    else LookUp(repo, Turn(After(repo, s, order[..|order| - 1])), order[|order| - 1])
  }

  /** Each name is one that is left of its round. */
  ghost predicate Legal(repo: Repository, s: Search, order: seq<Path>) {
    forall i :: 0 <= i < |order| ==> order[i] in Turn(After(repo, s, order[..i])).rest
  }

  lemma OneMoreLookUp(repo: Repository, s: Search, order: seq<Path>, p: Path)
    requires Legal(repo, s, order) && p in Turn(After(repo, s, order)).rest
    ensures Legal(repo, s, order + [p])
    ensures After(repo, s, order + [p]) == LookUp(repo, Turn(After(repo, s, order)), p)
  {
    var more := order + [p];
    hide LookUp, Turn;
    assert more[..|order|] == order;
    forall i | 0 <= i < |more|
      ensures more[i] in Turn(After(repo, s, more[..i])).rest
    {
      if i < |order| {
        assert more[..i] == order[..i];
      }
    }
  }

  lemma NothingLookedUp(repo: Repository, s: Search)
    ensures Legal(repo, s, []) && After(repo, s, []) == s
  {
  }

  lemma LegalBefore(repo: Repository, s: Search, order: seq<Path>)
    requires Legal(repo, s, order) && order != []
    ensures Legal(repo, s, order[..|order| - 1])
  {
    hide After, Turn;
    var before := order[..|order| - 1];
    forall i | 0 <= i < |before|
      ensures before[i] in Turn(After(repo, s, before[..i])).rest
    {
      assert before[..i] == order[..i] && before[i] == order[i];
    }
  }

  /** A path under which a module file is found that no file registers. */
  ghost predicate Misnamed(repo: Repository, p: Path) {
    p in repo && forall x :: x in repo ==> repo[x].fullName != p && !ProperPrefix(p, repo[x].fullName)
  }

  /** If the file found under a path that no file registers imports that path, it stays among the names to be
      loaded, and is loaded again in every round: the rounds never end. */
  lemma {:induction false} MisnamedForever(repo: Repository, s: Search, order: seq<Path>, p: Path)
    requires Misnamed(repo, p) && p in repo[p].imports && p !in s.tree && p in s.rest + s.next && Legal(repo, s, order)
    ensures var e := After(repo, s, order); p !in e.tree && p in e.rest + e.next
    decreases |order|
  {
    if order != [] {
      var (n, before) := (|order| - 1, order[..|order| - 1]);
      LegalBefore(repo, s, order);
      MisnamedForever(repo, s, before, p);
      hide Legal;
      StillMissing(repo, Turn(After(repo, s, before)), order[n], p);
    }
  }

  lemma StillMissing(repo: Repository, s: Search, x: Path, p: Path)
    requires Misnamed(repo, p) && p in repo[p].imports && p !in s.tree && p in s.rest + s.next
    ensures var e := LookUp(repo, s, x); p !in e.tree && p in e.rest + e.next
  {
    if x !in s.tree && x in repo {
      AddedRegistered(s.tree, repo[x]);
    }
    hide ProperPrefix, Added;
  }

  lemma ShortestName(names: set<Path>) returns (p: Path)
    requires names != {}
    ensures p in names && forall q :: q in names ==> |p| <= |q|
    decreases names
  {
    p :| p in names;
    if q :| q in names && |q| < |p| {
      var shorter := set x | x in names && |x| < |p|;
      assert p !in shorter && shorter <= names;
      assert q in shorter;
      p := ShortestName(shorter);
    }
  }

  class Loader {
    const repo: Repository
    var tree: Tree
    /** The paths that locate_module has been asked for and has found. */
    var located: seq<Path>

    constructor (repo: Repository, tree: Tree)
      ensures this.repo == repo && this.tree == tree && located == []
    {
      this.repo, this.tree, located := repo, tree, [];
    }

    /** Makes the missing parents of a module, and adds the module to the last of them. */
    method LoadSingleModule(img: Image)
      requires img.fullName != []
      modifies this`tree
      ensures tree == Added(old(tree), img)
    {
      var name := img.fullName;
      for i := 1 to |name|
        invariant forall p :: p in tree <==> p in old(tree) || exists j :: 0 < j < i && p == name[..j]
        invariant forall p :: p in tree ==> tree[p] == if p in old(tree) then old(tree)[p] else Namespace
      {
        ghost var before := tree;
        if name[..i] !in tree {
          tree := tree[name[..i] := Namespace];
        }
      }
      tree := tree[name := Module(img.imports)];
      assert forall p :: p in Parents(name) <==> exists j :: 0 < j < |name| && p == name[..j];
      assert tree == Added(old(tree), img);
    }

    /** Looks up each path, those with fewer parts first, loads what is not there, and collects the imports of
        what was loaded. */
    method Round(names: set<Path>, ghost t0: Tree, ghost start: Image, ghost log: seq<Path>, ghost k: nat)
      returns (ok: bool, newNames: set<Path>, ghost newLog: seq<Path>, ghost order: seq<Path>)
      requires OwnNames(repo) && Loading(repo, t0, start, tree, log, names)
      requires InRound(repo, t0, start, tree, log, k, names, {})
      modifies this
      ensures ok ==> Loading(repo, t0, start, tree, newLog, newNames)
      ensures ok ==> InRound(repo, t0, start, tree, newLog, k, {}, newNames)
      ensures log <= newLog && located == old(located) + newLog[|log|..]
      ensures ok && newNames != {} ==> repo.Keys - tree.Keys < repo.Keys - old(tree).Keys
      ensures !ok ==> Lacks(repo, t0, start.imports)
      ensures var s := Search(old(tree), names, {});
              Legal(repo, s, order) && (ok ==> After(repo, s, order) == Search(tree, {}, newNames))
    {
      hide *;
      var rest := names;
      newNames, newLog, order := {}, log, [];
      ghost var s := Search(tree, names, {});
      NothingLookedUp(repo, s);
      assert rest + newNames == names;
      while rest != {}
        invariant Loading(repo, t0, start, tree, newLog, rest + newNames)
        invariant InRound(repo, t0, start, tree, newLog, k, rest, newNames)
        invariant log <= newLog && located == old(located) + newLog[|log|..]
        invariant old(tree).Keys <= tree.Keys
        invariant newNames != {} ==> repo.Keys - tree.Keys < repo.Keys - old(tree).Keys
        invariant Legal(repo, s, order) && After(repo, s, order) == Search(tree, rest, newNames)
        decreases rest
      {
        ghost var shortest := ShortestName(rest);
        var p :| p in rest && forall q :: q in rest ==> |p| <= |q|;
        TodoNeeded(repo, t0, start, tree, newLog, rest + newNames, p);
        LookedUp(repo, s, order, tree, rest, newNames, p);
        if p in tree {
          Skipped(repo, t0, start, tree, newLog, rest + newNames, p);
          MoreTodo(repo, t0, start, tree, newLog, rest + newNames - {p}, p, rest - {p} + newNames);
          SkippedInRound(repo, t0, start, tree, newLog, k, rest, newNames, p);
        } else if p !in repo {
          IsLacking(repo, t0, start.imports, p);
          return false, newNames, newLog, order;
        } else {
          ghost var (before, todo) := (tree, rest + newNames);
          OwnName(repo, p);
          located := located + [p];
          LoadSingleModule(repo[p]);
          AddedFacts(before, repo[p]);
          Located(repo, t0, start, before, newLog, todo, p, tree);
          LocatedInRound(repo, t0, start, before, newLog, todo, k, rest, newNames, p, tree);
          WantedStill(repo, start, newLog, p, p);
          newLog := newLog + [p];
          newNames := newNames + repo[p].imports;
          MoreTodo(repo, t0, start, tree, newLog, todo - {p} + repo[p].imports, p, rest - {p} + newNames);
          assert p in repo.Keys - before.Keys && p !in repo.Keys - tree.Keys;
        }
        order := order + [p];
        rest := rest - {p};
      }
      assert rest + newNames == newNames;
      return true, newNames, newLog, order;
    }

    method LoadDependencies(imports: set<Path>, ghost t0: Tree, ghost start: Image)
      returns (ok: bool, ghost log: seq<Path>, ghost k: nat)
      requires OwnNames(repo) && Loading(repo, t0, start, tree, [], imports)
      requires InRound(repo, t0, start, tree, [], 1, imports, {})
      modifies this
      ensures ok ==> Loading(repo, t0, start, tree, log, {}) && InRound(repo, t0, start, tree, log, k, {}, {})
      ensures located == old(located) + log
      ensures !ok ==> Lacks(repo, t0, start.imports)
    {
      hide *;
      var names := imports;
      log, k := [], 1;
      while true
        invariant Loading(repo, t0, start, tree, log, names)
        invariant k >= 1 && InRound(repo, t0, start, tree, log, k, names, {})
        invariant located == old(located) + log
        decreases repo.Keys - tree.Keys
      {
        ghost var newLog, order;
        var found, newNames;
        found, newNames, newLog, order := Round(names, t0, start, log, k);
        assert located == old(located) + newLog;
        log := newLog;
        if !found {
          return false, log, k;
        }
        if newNames == {} {
          return true, log, k;
        }
        NextRound(repo, t0, start, tree, log, k, newNames);
        names, k := newNames, k + 1;
      }
    }

    /** Loads a module and, round by round, what is missing of its imports. This comes to an end, and then
        every import of what was loaded is there, if only as a namespace. The modules located are all that was
        needed and missing exactly when none of these is a parent of another one that is closer; then, too,
        the load succeeds exactly when everything needed and missing can be found. If all modules had their
        imports before, they have them after exactly when, besides, no needed path was a namespace before. */
    method LoadModule(img: Image) returns (r: Result)
      requires OwnNames(repo) && img.fullName != [] && img.fullName !in tree
      modifies this
      ensures old(located) <= located
      ensures r == NotFound ==> Lacks(repo, Added(old(tree), img), img.imports)
      ensures r == Loaded ==> Extended(repo, Added(old(tree), img), img, tree, located[|old(located)|..])
      ensures r == Loaded ==>
                (LocatedAll(repo, Added(old(tree), img), img, located[|old(located)|..]) <==>
                 NoneHidden(repo, Added(old(tree), img), img.imports))
      ensures NoneHidden(repo, Added(old(tree), img), img.imports) ==>
                (r == Loaded <==> !Lacks(repo, Added(old(tree), img), img.imports))
      ensures r == Loaded && old(ClosedModules(tree)) ==>
                var t0 := Added(old(tree), img);
                && AllThere(tree)
                && (ClosedModules(tree) <==> NoneNamespace(repo, t0, img.imports) && NoneHidden(repo, t0, img.imports))
    {
      hide *;
      ghost var (t0, closed) := (Added(tree, img), ClosedModules(tree));
      StartsClosed(tree, img);
      ghost var log, k;
      var ok;
      ok, log, k := LoadRounds(img);
      assert located[|old(located)|..] == log;
      if !ok {
        return NotFound;
      }
      LoadedMeans(repo, t0, img, tree, log, k);
      if closed {
        ImportsThere(repo, t0, img, tree, log);
        ClosedExactly(repo, t0, img, tree, log, k);
      }
      return Loaded;
    }

    method LoadRounds(img: Image) returns (ok: bool, ghost log: seq<Path>, ghost k: nat)
      requires OwnNames(repo) && img.fullName != []
      modifies this
      ensures ok ==> Loading(repo, Added(old(tree), img), img, tree, log, {})
      ensures ok ==> InRound(repo, Added(old(tree), img), img, tree, log, k, {}, {})
      ensures located == old(located) + log
      ensures !ok ==> Lacks(repo, Added(old(tree), img), img.imports)
    {
      hide *;
      LoadSingleModule(img);
      Begun(repo, tree, img);
      FirstRound(repo, tree, img);
      ok, log, k := LoadDependencies(img.imports, tree, img);
    }
  }

  lemma LookedUp(repo: Repository, s: Search, order: seq<Path>, t: Tree, rest: set<Path>, next: set<Path>, p: Path)
    requires Legal(repo, s, order) && After(repo, s, order) == Search(t, rest, next) && p in rest
    ensures Legal(repo, s, order + [p])
    ensures p in t || p !in repo ==> After(repo, s, order + [p]) == Search(t, rest - {p}, next)
    ensures p !in t && p in repo ==>
              After(repo, s, order + [p]) == Search(Added(t, repo[p]), rest - {p}, next + repo[p].imports)
  {
    OneMoreLookUp(repo, s, order, p);
    hide After, Legal, Added;
  }

  lemma IsLacking(repo: Repository, t: Tree, imports: set<Path>, p: Path)
    requires Needs(repo, t, imports, p) && p !in t && p !in repo
    ensures Lacks(repo, t, imports)
  {
  }

  lemma OwnName(repo: Repository, p: Path)
    requires OwnNames(repo) && p in repo
    ensures repo[p].fullName == p && p != []
  {
  }

  lemma AddedFacts(t: Tree, img: Image)
    ensures Registered(t, Added(t, img), img) && t.Keys <= Added(t, img).Keys && img.fullName in Added(t, img)
  {
    AddedRegistered(t, img);
  }

  /** Every import of a module is registered. */
  ghost predicate AllThere(t: Tree) {
    forall p, q :: p in t && t[p].Module? && q in t[p].imports ==> q in t
  }

  /** t is t0 with the modules of log, each needed and missing, and with namespaces above them; all that the
      modules loaded import is there. */
  ghost predicate Extended(repo: Repository, t0: Tree, start: Image, t: Tree, log: seq<Path>) {
    && NoRepeats(log) && InOrder(repo, start, log)
    && (forall p :: p in t0 ==> p in t && t[p] == t0[p])
    && (forall q :: q in start.imports ==> q in t)
    && (forall p, q :: p in log && p in repo && q in repo[p].imports ==> q in t)
    && (forall p :: p in log ==>
          Needs(repo, t0, start.imports, p) && p !in t0 && p in repo && p in t && t[p] == Module(repo[p].imports))
    && (forall p :: p in t && p !in t0 && p !in log ==> t[p] == Namespace && exists q :: q in log && ProperPrefix(p, q))
  }

  lemma LoadedMeans(repo: Repository, t0: Tree, start: Image, t: Tree, log: seq<Path>, k: nat)
    requires Loading(repo, t0, start, t, log, {}) && InRound(repo, t0, start, t, log, k, {}, {})
    ensures Extended(repo, t0, start, t, log)
    ensures LocatedAll(repo, t0, start, log) <==> NoneHidden(repo, t0, start.imports)
    ensures NoneHidden(repo, t0, start.imports) ==> !Lacks(repo, t0, start.imports)
  {
    LocatedExactly(repo, t0, start, t, log, k);
    LoadedExtends(repo, t0, start, t, log);
    hide *;
    if LocatedAll(repo, t0, start, log) {
      NoneLacking(repo, t0, start, t, log);
    }
  }

  lemma LoadedExtends(repo: Repository, t0: Tree, start: Image, t: Tree, log: seq<Path>)
    requires Loading(repo, t0, start, t, log, {})
    ensures Extended(repo, t0, start, t, log)
  {
    hide Needs, NoRepeats, ProperPrefix, InOrder, Wanted;
  }

  lemma ImportsThere(repo: Repository, t0: Tree, start: Image, t: Tree, log: seq<Path>)
    requires Loading(repo, t0, start, t, log, {})
    requires ClosedBut(t0, start.fullName) && start.fullName in t0 && t0[start.fullName] == Module(start.imports)
    ensures AllThere(t)
  {
    hide Needs, NoRepeats, ProperPrefix, Ordered;
  }

  lemma NoneLacking(repo: Repository, t0: Tree, start: Image, t: Tree, log: seq<Path>)
    requires Extended(repo, t0, start, t, log) && LocatedAll(repo, t0, start, log)
    ensures !Lacks(repo, t0, start.imports)
  {
    hide Needs, NoRepeats;
  }

  // ----- A module that a namespace hides

  const SHORT: Path := ["a"]
  const LONG: Path := ["a", "b"]

  /** The module a.b imports a. */
  function Hiding(): Repository {
    map[LONG := Image(LONG, {SHORT}), SHORT := Image(SHORT, {})]
  }

  lemma {:induction false} WayWithin(repo: Repository, t: Tree, imports: set<Path>, w: seq<Path>, s: set<Path>)
    requires Way(repo, t, imports, w) && imports <= s
    requires forall x, y :: x in s && x in repo && y in repo[x].imports ==> y in s
    ensures w[|w| - 1] in s
    decreases |w|
  {
    var n := |w| - 1;
    if n > 0 {
      var v := w[..n];
      assert Way(repo, t, imports, v);
      WayWithin(repo, t, imports, v, s);
      assert v[|v| - 1] == w[n - 1] && w[(n - 1) + 1] in repo[w[n - 1]].imports;
    }
  }

  lemma HidingNeeds(t: Tree, p: Path)
    requires Needs(Hiding(), t, {LONG}, p)
    ensures p == SHORT || p == LONG
  {
    var w :| Way(Hiding(), t, {LONG}, w) && w[|w| - 1] == p;
    WayWithin(Hiding(), t, {LONG}, w, {SHORT, LONG});
  }

  lemma HidingFinds(t: Tree)
    ensures OwnNames(Hiding()) && !Lacks(Hiding(), t, {LONG})
    ensures LONG !in t ==> Needs(Hiding(), t, {LONG}, SHORT)
  {
    forall p | Needs(Hiding(), t, {LONG}, p)
      ensures p in Hiding()
    {
      HidingNeeds(t, p);
    }
    NeedsFirst(Hiding(), t, {LONG}, LONG);
    if LONG !in t {
      NeedsNext(Hiding(), t, {LONG}, LONG, SHORT);
    }
  }

  lemma ShortNotLocated(start: Image, log: seq<Path>)
    requires InOrder(Hiding(), start, log) && start.imports == {LONG}
    ensures SHORT !in log
  {
    forall i | 0 <= i < |log|
      ensures log[i] != SHORT
    {
      assert Wanted(Hiding(), start, log[..i], log[i]) && NoParent(log[i], log[..i]);
      assert LONG[..1] == SHORT && ProperPrefix(SHORT, LONG);
    }
  }

  /** The load succeeds, and the module a, whose file is there to be found and which a.b imports, is a mere
      namespace. */
  method NamespaceHides() returns (loader: Loader, r: Result)
    ensures r == Loaded && !ClosedModules(loader.tree)
    ensures SHORT in loader.repo && SHORT in loader.tree && loader.tree[SHORT] == Namespace
  {
    loader := new Loader(Hiding(), map[]);
    var start := Image(["s"], {LONG});
    ghost var t0 := Added(map[], start);
    StartOnly(start);
    HidingFinds(t0);
    hide Added, Needs, Lacks, OwnNames, InOrder, Hiding;
    r := loader.LoadModule(start);
    ShortNotLocated(start, loader.located);
    assert loader.located[0..] == loader.located;
    HiddenByLong(start, t0, loader.tree, loader.located);
  }

  lemma StartOnly(start: Image)
    requires start.fullName == ["s"]
    ensures forall p :: p in Added(map[], start) <==> p == ["s"]
    ensures ClosedModules(map[])
  {
  }

  lemma HiddenByLong(start: Image, t0: Tree, t: Tree, log: seq<Path>)
    requires start == Image(["s"], {LONG}) && (forall p :: p in t0 <==> p == ["s"]) && SHORT !in log
    requires Extended(Hiding(), t0, start, t, log) && AllThere(t) && t0[["s"]] == Module({LONG})
    ensures !AllModules(Hiding(), t0, start, log) && SHORT in Hiding() && SHORT in t && t[SHORT] == Namespace
  {
    HidingFinds(t0);
    assert |LONG| == 2 && |SHORT| == 1 && |["s"]| == 1 && LONG[0] == "a";
    assert ["s"] in t && LONG in t[["s"]].imports;
    hide Needs, InOrder, NoRepeats;
    assert forall q :: q in log ==> !ProperPrefix(LONG, q);
    assert LONG in t && SHORT in t[LONG].imports;
  }

  // ----- A module with a module inside it

  /** Both a and a.b are modules. */
  function Package(): Repository {
    map[SHORT := Image(SHORT, {}), LONG := Image(LONG, {})]
  }

  lemma PackageNeeds(t0: Tree, p: Path)
    requires Needs(Package(), t0, {SHORT, LONG}, p)
    ensures p == SHORT || p == LONG
    ensures Distance(Package(), t0, {SHORT, LONG}, p) == 1
  {
    var w :| Way(Package(), t0, {SHORT, LONG}, w) && w[|w| - 1] == p;
    WayWithin(Package(), t0, {SHORT, LONG}, w, {SHORT, LONG});
    FirstDistance(Package(), t0, {SHORT, LONG}, p);
  }

  lemma PackageFinds(t0: Tree)
    requires forall p :: p in t0 <==> p == ["s"]
    ensures OwnNames(Package()) && !Lacks(Package(), t0, {SHORT, LONG})
    ensures NoneHidden(Package(), t0, {SHORT, LONG}) && NoneNamespace(Package(), t0, {SHORT, LONG})
    ensures Needs(Package(), t0, {SHORT, LONG}, SHORT) && SHORT !in t0
  {
    assert |["s"]| == 1 && |LONG| == 2 && SHORT[0] == "a" && ["s"][0] == "s";
    NeedsFirst(Package(), t0, {SHORT, LONG}, SHORT);
    forall p | Needs(Package(), t0, {SHORT, LONG}, p)
      ensures p in Package() && p !in t0 && Distance(Package(), t0, {SHORT, LONG}, p) == 1
    {
      PackageNeeds(t0, p);
    }
    hide Needs, Distance;
  }

  /** A module and one inside it, imported together, are both loaded: the shorter name is looked up first. */
  method PackageLoads() returns (loader: Loader, r: Result)
    ensures r == Loaded && ClosedModules(loader.tree) && SHORT in loader.located && LONG in loader.located
  {
    loader := new Loader(Package(), map[]);
    var start := Image(["s"], {SHORT, LONG});
    ghost var t0 := Added(map[], start);
    StartOnly(start);
    PackageFinds(t0);
    LongNeeded(t0);
    hide Added, Needs, Lacks, OwnNames, Package, NoneHidden, NoneNamespace, Extended, AllThere, ClosedModules;
    r := loader.LoadModule(start);
    assert loader.located[0..] == loader.located;
  }

  lemma LongNeeded(t0: Tree)
    requires forall p :: p in t0 <==> p == ["s"]
    ensures Needs(Package(), t0, {SHORT, LONG}, LONG) && LONG !in t0
  {
    assert |["s"]| == 1 && |LONG| == 2;
    NeedsFirst(Package(), t0, {SHORT, LONG}, LONG);
  }
}
