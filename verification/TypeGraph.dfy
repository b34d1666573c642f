/** The depth-first checks for cyclic inheritance and for structs that contain themselves
    (slake/obj/class.cc). Neither remembers finished nodes: both walk every simple path. */
module TypeGraph {

  /** What one field or implemented type leads to: another node, or nothing to walk. */
  datatype Edge = Leaf | To(id: nat)

  type Graph = map<nat, seq<Edge>>

  ghost predicate Closed(g: Graph) {
    forall id, k :: id in g && 0 <= k < |g[id]| && g[id][k].To? ==> g[id][k].id in g
  }

  /** The walk from id succeeds when the nodes of seen are on the way to it: it meets none of them
      again, and no node of bad. */
  ghost predicate Explored(g: Graph, bad: set<nat>, id: nat, seen: set<nat>)
    requires Closed(g) && id in g && seen <= g.Keys
    decreases g.Keys - seen
  {
    && id !in seen && id !in bad
    && (assert g.Keys - (seen + {id}) < g.Keys - seen;
        forall k :: 0 <= k < |g[id]| && g[id][k].To? ==> Explored(g, bad, g[id][k].id, seen + {id}))
  }

  // ----- What the walk decides

  /** p follows edges of the graph. */
  ghost predicate IsPath(g: Graph, p: seq<nat>) {
    && p != [] && (forall i :: 0 <= i < |p| ==> p[i] in g)
    && (forall i :: 0 <= i < |p| - 1 ==> To(p[i + 1]) in g[p[i]])
  }

  ghost predicate Simple(p: seq<nat>) {
    forall i, j :: 0 <= i < j < |p| ==> p[i] != p[j]
  }

  ghost function Nodes(p: seq<nat>): set<nat> {
    set x | x in p
  }

  /** No path from root comes back to itself, and none leads to a bad node. */
  ghost predicate Acceptable(g: Graph, bad: set<nat>, root: nat) {
    forall p :: IsPath(g, p) && p[0] == root ==> Simple(p) && p[|p| - 1] !in bad
  }

  ghost predicate Fine(bad: set<nat>, p: seq<nat>)
    requires p != []
  {
    Simple(p) && p[|p| - 1] !in bad
  }

  lemma PathStep(g: Graph, p: seq<nat>, c: nat)
    requires IsPath(g, p) && c in g && To(c) in g[p[|p| - 1]]
    ensures IsPath(g, p + [c]) && (p + [c])[..|p|] == p && Nodes(p + [c]) == Nodes(p) + {c}
    ensures c !in Nodes(p) && Simple(p) ==> Simple(p + [c]) && g.Keys - Nodes(p + [c]) < g.Keys - Nodes(p)
  {
    var q := p + [c];
    assert forall x :: x in q <==> x in p || x == c;
    if c !in Nodes(p) && Simple(p) {
      assert c in g.Keys - Nodes(p) && c !in g.Keys - Nodes(q);
    }
  }

  lemma LastSeen(p: seq<nat>)
    requires p != [] && Simple(p)
    ensures var (n, last) := (|p| - 1, p[|p| - 1]);
            last !in Nodes(p[..n]) && Nodes(p) == Nodes(p[..n]) + {last}
  {
    assert p == p[..|p| - 1] + [p[|p| - 1]];
  }

  /** A walk that succeeds from the end of a simple path p has met every way on from p, and all are fine. */
  lemma {:induction false} ExploredMeans(g: Graph, bad: set<nat>, p: seq<nat>, q: seq<nat>)
    requires Closed(g) && IsPath(g, p) && Simple(p) && Nodes(p[..|p| - 1]) <= g.Keys
    requires Explored(g, bad, p[|p| - 1], Nodes(p[..|p| - 1])) && IsPath(g, p + q)
    ensures Fine(bad, p + q)
    decreases |q|
  {
    var last := p[|p| - 1];
    LastSeen(p);
    if q == [] {
      assert p + q == p;
    } else {
      var c := q[0];
      assert (p + q)[|p| - 1] == last && (p + q)[|p|] == c;
      var k :| 0 <= k < |g[last]| && g[last][k] == To(c);
      assert Explored(g, bad, g[last][k].id, Nodes(p[..|p| - 1]) + {last});
      assert c in g;
      PathStep(g, p, c);
      assert p + q == (p + [c]) + q[1..];
      ExploredMeans(g, bad, p + [c], q[1..]);
    }
  }

  /** And it succeeds whenever they all are. */
  lemma {:induction false} FineExplored(g: Graph, bad: set<nat>, p: seq<nat>)
    requires Closed(g) && IsPath(g, p) && Nodes(p[..|p| - 1]) <= g.Keys
    requires forall q :: IsPath(g, p + q) ==> Fine(bad, p + q)
    ensures Explored(g, bad, p[|p| - 1], Nodes(p[..|p| - 1]))
    decreases g.Keys - Nodes(p)
  {
    var last := p[|p| - 1];
    assert p + [] == p && Fine(bad, p + []);
    LastSeen(p);
    forall k | 0 <= k < |g[last]| && g[last][k].To?
      ensures Explored(g, bad, g[last][k].id, Nodes(p[..|p| - 1]) + {last})
    {
      var c := g[last][k].id;
      PathStep(g, p, c);
      assert Fine(bad, p + [c]);
      LastSeen(p + [c]);
      forall q | IsPath(g, (p + [c]) + q)
        ensures Fine(bad, (p + [c]) + q)
      {
        assert (p + [c]) + q == p + ([c] + q);
      }
      FineExplored(g, bad, p + [c]);
    }
  }

  /** The walk from root succeeds exactly when no path from root comes back to itself or leads to a
      bad node. */
  lemma ExploredExactly(g: Graph, bad: set<nat>, root: nat)
    requires Closed(g) && root in g
    ensures Explored(g, bad, root, {}) <==> Acceptable(g, bad, root)
  {
    var p := [root];
    assert Nodes(p[..0]) == {};
    if Explored(g, bad, root, {}) {
      forall q | IsPath(g, q) && q[0] == root
        ensures Fine(bad, q)
      {
        assert p + q[1..] == q;
        ExploredMeans(g, bad, p, q[1..]);
      }
    }
    if Acceptable(g, bad, root) {
      forall q | IsPath(g, p + q)
        ensures Fine(bad, p + q)
      {
      }
      FineExplored(g, bad, p);
    }
  }

  // ----- How much is left to walk

  /** The steps of a walk from id, when the nodes of seen are on the way to it. */
  ghost function Work(g: Graph, id: nat, seen: set<nat>): (w: nat)
    requires Closed(g) && id in g && seen <= g.Keys
    ensures w > 0
    decreases g.Keys - seen, 1, 0
  {
    if id in seen then 1 else Remaining(g, id, seen, 0)
  }

  /** The steps left when the first k edges of id have been followed. */
  ghost function Remaining(g: Graph, id: nat, seen: set<nat>, k: nat): (w: nat)
    requires Closed(g) && id in g && seen <= g.Keys && id !in seen
    ensures w > 0
    decreases g.Keys - seen, 0, |g[id]| - k
  {
    if k >= |g[id]| then 1
    else
      assert g.Keys - (seen + {id}) < g.Keys - seen;
      1 + Remaining(g, id, seen, k + 1) + if g[id][k].To? then Work(g, g[id][k].id, seen + {id}) else 0
  }

  // ----- The explicit stack

  datatype Frame = Frame(id: nat, index: nat)

  ghost function Ids(fs: seq<Frame>): set<nat> {
    set j | 0 <= j < |fs| :: fs[j].id
  }

  lemma IdsSnoc(fs: seq<Frame>, f: Frame)
    ensures Ids(fs + [f]) == Ids(fs) + {f.id}
  {
    assert forall j :: 0 <= j < |fs| ==> (fs + [f])[j] == fs[j];
    assert (fs + [f])[|fs|] == f;
  }

  /** The first k edges of the frame's node have been walked; the frames of seen are below it. */
  ghost predicate Walked(g: Graph, bad: set<nat>, id: nat, seen: set<nat>, k: nat)
    requires Closed(g) && id in g && seen <= g.Keys
  {
    && id !in seen && k <= |g[id]|
    && (forall j :: 0 <= j < k && g[id][j].To? ==> Explored(g, bad, g[id][j].id, seen + {id}))
  }

  /** The frames below the current one: each is walking the edge before its index, which leads to the
      node of the next frame, and has walked the edges before that one. */
  ghost predicate Waiting(g: Graph, bad: set<nat>, root: nat, fs: seq<Frame>, top: nat)
    requires Closed(g)
    decreases |fs|
  {
    if fs == [] then top == root else
      var (below, f) := (fs[..|fs| - 1], fs[|fs| - 1]);
      && Ids(below) <= g.Keys && f.id in g && 0 < f.index <= |g[f.id]| && g[f.id][f.index - 1] == To(top)
      && Walked(g, bad, f.id, Ids(below), f.index - 1)
      && Waiting(g, bad, root, below, f.id)
  }

  /** The nodes below are known, and a node that fails to be explored makes the root fail. */
  lemma {:induction false} WaitingMeans(g: Graph, bad: set<nat>, root: nat, fs: seq<Frame>, top: nat)
    requires Closed(g) && root in g && Waiting(g, bad, root, fs, top)
    ensures Ids(fs) <= g.Keys && top in g
    ensures !Explored(g, bad, top, Ids(fs)) ==> !Explored(g, bad, root, {})
    decreases |fs|
  {
    if fs == [] {
      assert Ids(fs) == {};
    } else {
      var (below, f) := (fs[..|fs| - 1], fs[|fs| - 1]);
      WaitingMeans(g, bad, root, below, f.id);
      IdsSnoc(below, f);
      assert fs == below + [f];
    }
  }

  /** The steps left for the frames below the current one. */
  ghost function WaitingWork(g: Graph, bad: set<nat>, root: nat, fs: seq<Frame>, top: nat): nat
    requires Closed(g) && Waiting(g, bad, root, fs, top)
    decreases |fs|
  {
    if fs == [] then 0 else
      var (below, f) := (fs[..|fs| - 1], fs[|fs| - 1]);
      WaitingWork(g, bad, root, below, f.id) + Remaining(g, f.id, Ids(below), f.index)
  }

  /** The current frame: either it has just been pushed, or it has walked some edges. */
  ghost predicate Current(g: Graph, bad: set<nat>, fs: seq<Frame>, f: Frame)
    requires Closed(g) && f.id in g && Ids(fs) <= g.Keys
  {
    f.index > 0 ==> Walked(g, bad, f.id, Ids(fs), f.index)
  }

  ghost function TopWork(g: Graph, fs: seq<Frame>, f: Frame): nat
    requires Closed(g) && f.id in g && Ids(fs) <= g.Keys
  {
    if f.id in Ids(fs) then 1 else Remaining(g, f.id, Ids(fs), f.index)
  }

  /** Following an edge to another node. */
  lemma Push(g: Graph, bad: set<nat>, root: nat, fs: seq<Frame>, f: Frame)
    requires Closed(g) && root in g && Waiting(g, bad, root, fs, f.id) && f.id in g && Ids(fs) <= g.Keys
    requires Walked(g, bad, f.id, Ids(fs), f.index) && f.index < |g[f.id]| && g[f.id][f.index].To?
    ensures var (gs, c) := (fs + [Frame(f.id, f.index + 1)], g[f.id][f.index].id);
            && Waiting(g, bad, root, gs, c) && c in g && Ids(gs) <= g.Keys && Current(g, bad, gs, Frame(c, 0))
            && WaitingWork(g, bad, root, gs, c) + TopWork(g, gs, Frame(c, 0))
               < WaitingWork(g, bad, root, fs, f.id) + TopWork(g, fs, f)
  {
    var (gs, c) := (fs + [Frame(f.id, f.index + 1)], g[f.id][f.index].id);
    IdsSnoc(fs, Frame(f.id, f.index + 1));
    assert gs[..|fs|] == fs && gs[|gs| - 1] == Frame(f.id, f.index + 1);
    WaitingMeans(g, bad, root, gs, c);
    assert WaitingWork(g, bad, root, gs, c) == WaitingWork(g, bad, root, fs, f.id) +
            Remaining(g, f.id, Ids(fs), f.index + 1);
    assert TopWork(g, gs, Frame(c, 0)) == Work(g, c, Ids(fs) + {f.id});
    assert Remaining(g, f.id, Ids(fs), f.index) == 1 + Remaining(g, f.id, Ids(fs), f.index + 1) +
            Work(g, c, Ids(fs) + {f.id});
  }

  /** Passing an edge that leads nowhere. */
  lemma Pass(g: Graph, bad: set<nat>, fs: seq<Frame>, f: Frame)
    requires Closed(g) && f.id in g && Ids(fs) <= g.Keys
    requires Walked(g, bad, f.id, Ids(fs), f.index) && f.index < |g[f.id]| && g[f.id][f.index].Leaf?
    ensures Walked(g, bad, f.id, Ids(fs), f.index + 1)
    ensures TopWork(g, fs, Frame(f.id, f.index + 1)) < TopWork(g, fs, f)
  {
  }

  /** Finishing a node: the frame below goes on with its next edge. */
  lemma Pop(g: Graph, bad: set<nat>, root: nat, fs: seq<Frame>, f: Frame)
    requires Closed(g) && root in g && Waiting(g, bad, root, fs, f.id) && f.id in g && Ids(fs) <= g.Keys
    requires Walked(g, bad, f.id, Ids(fs), |g[f.id]|) && f.index == |g[f.id]| && f.id !in bad
    ensures Explored(g, bad, f.id, Ids(fs))
    ensures fs == [] ==> Explored(g, bad, root, {})
    ensures fs != [] ==>
      var (below, b) := (fs[..|fs| - 1], fs[|fs| - 1]);
      && Waiting(g, bad, root, below, b.id) && b.id in g && Ids(below) <= g.Keys && Current(g, bad, below, b)
      && WaitingWork(g, bad, root, below, b.id) + TopWork(g, below, b)
         < WaitingWork(g, bad, root, fs, f.id) + TopWork(g, fs, f)
  {
    if fs == [] {
      assert Ids(fs) == {};
    } else {
      assert fs == fs[..|fs| - 1] + [fs[|fs| - 1]];
      IdsSnoc(fs[..|fs| - 1], fs[|fs| - 1]);
    }
  }

  // ----- The checks

  datatype InterfaceResult = Inherits | CyclicInheritance | NotAnInterface

  datatype StructResult = NotRecursed | Recursed | NoFirstField

  /** Nodes that name something which is no interface. */
  ghost function Malformed(g: Graph): set<nat> {
    set id | id in g && exists k :: 0 <= k < |g[id]| && g[id][k].Leaf?
  }

  /** Nodes without any field. */
  ghost function Empty(g: Graph): set<nat> {
    set id | id in g && g[id] == []
  }

  /** Whether the node of the current frame is already being walked. */
  method OnStack(frames: seq<Frame>, id: nat) returns (found: bool)
    ensures found <==> id in Ids(frames)
  {
    for i := 0 to |frames|
      invariant forall j :: 0 <= j < i ==> frames[j].id != id
    {
      if frames[i].id == id {
        return true;
      }
    }
    return false;
  }

  /** The whole stack, the current frame last. */
  ghost predicate StackOk(g: Graph, bad: set<nat>, root: nat, fs: seq<Frame>)
    requires Closed(g) && root in g
  {
    if fs == [] then Explored(g, bad, root, {}) else
      var (below, f) := (fs[..|fs| - 1], fs[|fs| - 1]);
      && Waiting(g, bad, root, below, f.id) && f.id in g && Ids(below) <= g.Keys
      && Current(g, bad, below, f)
  }

  ghost function StackWork(g: Graph, bad: set<nat>, root: nat, fs: seq<Frame>): nat
    requires Closed(g) && root in g && StackOk(g, bad, root, fs)
  {
    if fs == [] then 0 else
      var (below, f) := (fs[..|fs| - 1], fs[|fs| - 1]);
      WaitingWork(g, bad, root, below, f.id) + TopWork(g, below, f)
  }

  /** One step of a walk whose current node is on the stack only once, and not bad if it is left. */
  ghost function Stepped(g: Graph, fs: seq<Frame>): seq<Frame>
    requires fs != [] && fs[|fs| - 1].id in g
  {
    var (below, f) := (fs[..|fs| - 1], fs[|fs| - 1]);
    if f.index >= |g[f.id]| then below
    else if g[f.id][f.index].Leaf? then below + [Frame(f.id, f.index + 1)]
    else below + [Frame(f.id, f.index + 1), Frame(g[f.id][f.index].id, 0)]
  }

  lemma Step(g: Graph, bad: set<nat>, root: nat, fs: seq<Frame>)
    requires Closed(g) && root in g && fs != [] && StackOk(g, bad, root, fs)
    requires var (below, f) := (fs[..|fs| - 1], fs[|fs| - 1]);
             && (f.index == 0 ==> f.id !in Ids(below))
             && (f.index >= |g[f.id]| ==> f.id !in bad)
    ensures StackOk(g, bad, root, Stepped(g, fs))
    ensures StackWork(g, bad, root, Stepped(g, fs)) < StackWork(g, bad, root, fs)
  {
    var (below, f) := (fs[..|fs| - 1], fs[|fs| - 1]);
    var gs := Stepped(g, fs);
    StackFacts(g, bad, root, fs, f);
    hide Explored, Waiting, WaitingWork, TopWork, Closed;
    if f.index >= |g[f.id]| {
      Pop(g, bad, root, below, f);
    } else if g[f.id][f.index].Leaf? {
      Pass(g, bad, below, f);
      assert gs[..|gs| - 1] == below;
    } else {
      Push(g, bad, root, below, f);
      assert gs[..|gs| - 1] == below + [Frame(f.id, f.index + 1)];
    }
  }

  /** The nodes of the stack are a path from the root. */
  lemma {:induction false} StackPath(g: Graph, bad: set<nat>, root: nat, fs: seq<Frame>, top: nat)
    returns (p: seq<nat>)
    requires Closed(g) && root in g && Waiting(g, bad, root, fs, top)
    ensures IsPath(g, p) && p[0] == root && p[|p| - 1] == top && Nodes(p[..|p| - 1]) == Ids(fs)
    decreases |fs|
  {
    if fs == [] {
      p := [root];
    } else {
      var (below, f) := (fs[..|fs| - 1], fs[|fs| - 1]);
      WaitingMeans(g, bad, root, fs, top);
      var q := StackPath(g, bad, root, below, f.id);
      PathStep(g, q, top);
      p := q + [top];
      IdsSnoc(below, f);
      assert fs == below + [f] && q == q[..|q| - 1] + [f.id] && p[..|p| - 1] == q;
    }
  }

  /** Some path from root comes back to itself. */
  ghost predicate Returns(g: Graph, root: nat) {
    exists p :: IsPath(g, p) && p[0] == root && !Simple(p)
  }

  /** Some path from root leads to a bad node. */
  ghost predicate Meets(g: Graph, bad: set<nat>, root: nat) {
    exists p :: IsPath(g, p) && p[0] == root && p[|p| - 1] in bad
  }

  /** All that is implemented are interfaces. */
  ghost predicate NoLeaf(es: seq<Edge>) {
    forall k :: 0 <= k < |es| ==> es[k].To?
  }

  /** No path of inheritance comes back to itself or leads to a type that implements something else. */
  lemma InheritsExactly(g: Graph, root: nat)
    ensures Acceptable(g, Malformed(g), root) <==>
              forall p :: IsPath(g, p) && p[0] == root ==> Simple(p) && NoLeaf(g[p[|p| - 1]])
  {
    forall p | IsPath(g, p) && p[0] == root
      ensures p[|p| - 1] !in Malformed(g) <==> NoLeaf(g[p[|p| - 1]])
    {
      assert p[|p| - 1] in g;
    }
    hide IsPath, Simple, Malformed, NoLeaf;
  }

  /** No path of containment comes back to itself or leads to something without fields, or to a union. */
  lemma UnrecursedExactly(g: Graph, unions: set<nat>, root: nat)
    ensures Acceptable(g, Empty(g) + unions, root) <==>
              forall p :: IsPath(g, p) && p[0] == root ==>
                Simple(p) && g[p[|p| - 1]] != [] && p[|p| - 1] !in unions
  {
    forall p | IsPath(g, p) && p[0] == root
      ensures p[|p| - 1] !in Empty(g) <==> g[p[|p| - 1]] != []
    {
      assert p[|p| - 1] in g;
    }
    hide IsPath, Simple, Empty;
  }

  // ----- Walks that never end

  /** A node on the way to a cycle has an edge that is, too. */
  lemma LoopGoesOn(g: Graph, id: nat)
    requires Returns(g, id)
    ensures id in g && exists k :: 0 <= k < |g[id]| && g[id][k].To? && g[id][k].id in g && Returns(g, g[id][k].id)
  {
    var p :| IsPath(g, p) && p[0] == id && !Simple(p);
    var i, j :| 0 <= i < j < |p| && p[i] == p[j];
    var c := p[1];
    assert To(p[0 + 1]) in g[p[0]];
    var k :| 0 <= k < |g[id]| && g[id][k] == To(c);
    if i > 0 {
      var q := p[1..];
      assert IsPath(g, q) && q[i - 1] == q[j - 1];
    } else {
      var q := p[1..j + 1];
      assert IsPath(g, q) && q[|q| - 1] == id;
      PathStep(g, q, c);
      assert (q + [c])[0] == (q + [c])[j];
    }
    assert Returns(g, c);
  }

  /** The frame has yet to follow an edge on the way to a cycle. */
  ghost predicate Looping(g: Graph, f: Frame) {
    f.id in g && exists k :: f.index <= k < |g[f.id]| && g[f.id][k].To? && Returns(g, g[f.id][k].id)
  }

  ghost predicate Endless(g: Graph, fs: seq<Frame>) {
    && (forall i :: 0 <= i < |fs| ==> fs[i].id in g)
    && (exists i :: 0 <= i < |fs| && Looping(g, fs[i]))
  }

  lemma StaysEndless(g: Graph, fs: seq<Frame>)
    requires Closed(g) && Endless(g, fs)
    ensures fs != [] && fs[|fs| - 1].id in g && Endless(g, Stepped(g, fs))
  {
    var (below, f, gs) := (fs[..|fs| - 1], fs[|fs| - 1], Stepped(g, fs));
    var i :| 0 <= i < |fs| && Looping(g, fs[i]);
    hide Returns;
    assert below <= gs;
    if i < |fs| - 1 {
      assert gs[i] == fs[i];
    } else {
      var k :| f.index <= k < |g[f.id]| && g[f.id][k].To? && Returns(g, g[f.id][k].id);
      if k > f.index {
        assert Looping(g, gs[|fs| - 1]);
      } else {
        LoopGoesOn(g, g[f.id][k].id);
        assert Looping(g, gs[|fs|]);
      }
    }
  }

  /** The stack after n steps of a walk that does not look for cycles. */
  ghost function Steps(g: Graph, fs: seq<Frame>, n: nat): seq<Frame> {
    if n == 0 then fs else
      var gs := Steps(g, fs, n - 1);
      if gs != [] && gs[|gs| - 1].id in g then Stepped(g, gs) else gs
  }

  /** From a node on the way to a cycle such a walk never ends. */
  lemma {:induction false} NeverEnds(g: Graph, root: nat, n: nat)
    requires Closed(g) && Returns(g, root)
    ensures Endless(g, Steps(g, [Frame(root, 0)], n)) && Steps(g, [Frame(root, 0)], n) != []
  {
    if n == 0 {
      LoopGoesOn(g, root);
      assert Looping(g, [Frame(root, 0)][0]);
    } else {
      NeverEnds(g, root, n - 1);
      StaysEndless(g, Steps(g, [Frame(root, 0)], n - 1));
    }
  }

  /** A current node that meets itself, or is bad, makes the whole walk fail. */
  lemma Fails(g: Graph, bad: set<nat>, root: nat, fs: seq<Frame>)
    requires Closed(g) && root in g && fs != [] && StackOk(g, bad, root, fs)
    requires var (below, f) := (fs[..|fs| - 1], fs[|fs| - 1]); f.id in Ids(below) || f.id in bad
    ensures !Explored(g, bad, root, {})
    ensures fs[|fs| - 1].id in Ids(fs[..|fs| - 1]) ==> Returns(g, root)
    ensures fs[|fs| - 1].id in bad ==> Meets(g, bad, root)
  {
    var (below, f) := (fs[..|fs| - 1], fs[|fs| - 1]);
    WaitingMeans(g, bad, root, below, f.id);
    var p := StackPath(g, bad, root, below, f.id);
    if f.id in Ids(below) {
      var i :| 0 <= i < |p| - 1 && p[..|p| - 1][i] == f.id;
      assert p[i] == p[|p| - 1];
    }
  }

  /** The same walk with fewer bad nodes. */
  lemma {:induction false} ExploredWithFewer(g: Graph, bad: set<nat>, fewer: set<nat>, id: nat, seen: set<nat>)
    requires Closed(g) && id in g && seen <= g.Keys && fewer <= bad && Explored(g, bad, id, seen)
    ensures Explored(g, fewer, id, seen)
    decreases g.Keys - seen
  {
    assert g.Keys - (seen + {id}) < g.Keys - seen;
    forall k | 0 <= k < |g[id]| && g[id][k].To?
      ensures Explored(g, fewer, g[id][k].id, seen + {id})
    {
      ExploredWithFewer(g, bad, fewer, g[id][k].id, seen + {id});
    }
  }

  /** The same walk with fewer nodes on the way. */
  lemma {:induction false} ExploredWithLess(g: Graph, bad: set<nat>, id: nat, seen: set<nat>, less: set<nat>)
    requires Closed(g) && id in g && less <= seen <= g.Keys && Explored(g, bad, id, seen)
    ensures Explored(g, bad, id, less)
    decreases g.Keys - seen
  {
    assert g.Keys - (seen + {id}) < g.Keys - seen;
    forall k | 0 <= k < |g[id]| && g[id][k].To?
      ensures Explored(g, bad, g[id][k].id, less + {id})
    {
      ExploredWithLess(g, bad, g[id][k].id, seen + {id}, less + {id});
    }
  }

  lemma WalkedWithFewer(g: Graph, bad: set<nat>, fewer: set<nat>, id: nat, seen: set<nat>, k: nat)
    requires Closed(g) && id in g && seen <= g.Keys && fewer <= bad && Walked(g, bad, id, seen, k)
    ensures Walked(g, fewer, id, seen, k)
  {
    forall j | 0 <= j < k && g[id][j].To?
      ensures Explored(g, fewer, g[id][j].id, seen + {id})
    {
      ExploredWithFewer(g, bad, fewer, g[id][j].id, seen + {id});
    }
  }

  lemma {:induction false} WaitingWithFewer(g: Graph, bad: set<nat>, fewer: set<nat>, root: nat, fs: seq<Frame>,
                                            top: nat)
    requires Closed(g) && fewer <= bad && Waiting(g, bad, root, fs, top)
    ensures Waiting(g, fewer, root, fs, top)
    decreases |fs|
  {
    if fs != [] {
      var (below, f) := (fs[..|fs| - 1], fs[|fs| - 1]);
      WalkedWithFewer(g, bad, fewer, f.id, Ids(below), f.index - 1);
      WaitingWithFewer(g, bad, fewer, root, below, f.id);
    }
  }

  lemma StackWithFewer(g: Graph, bad: set<nat>, fewer: set<nat>, root: nat, fs: seq<Frame>)
    requires Closed(g) && root in g && fewer <= bad && StackOk(g, bad, root, fs)
    ensures StackOk(g, fewer, root, fs)
  {
    if fs == [] {
      ExploredWithFewer(g, bad, fewer, root, {});
    } else {
      var (below, f) := (fs[..|fs| - 1], fs[|fs| - 1]);
      WaitingWithFewer(g, bad, fewer, root, below, f.id);
      if f.index > 0 {
        WalkedWithFewer(g, bad, fewer, f.id, Ids(below), f.index);
      }
    }
  }

  /** What is acceptable from root is acceptable from any node that root leads to. */
  lemma AcceptableOnward(g: Graph, bad: set<nat>, p: seq<nat>)
    requires IsPath(g, p) && Acceptable(g, bad, p[0])
    ensures Acceptable(g, bad, p[|p| - 1])
  {
    forall q | IsPath(g, q) && q[0] == p[|p| - 1]
      ensures Fine(bad, q)
    {
      var r := p + q[1..];
      assert IsPath(g, r) && r[0] == p[0];
      assert forall i :: 0 <= i < |q| ==> r[|p| - 1 + i] == q[i];
    }
  }

  lemma Started(g: Graph, bad: set<nat>, root: nat)
    requires Closed(g) && root in g
    ensures StackOk(g, bad, root, [Frame(root, 0)])
  {
    assert [Frame(root, 0)][..0] == [] && Ids([]) == {};
  }

  /** Leaves the current node when all its edges have been followed; else moves to its next edge, and to
      the node the current edge leads to. */
  method Follow(g: Graph, frames: seq<Frame>) returns (r: seq<Frame>)
    requires frames != [] && frames[|frames| - 1].id in g
    ensures r == Stepped(g, frames)
  {
    var cur := frames[|frames| - 1];
    r := frames[..|frames| - 1];
    if cur.index < |g[cur.id]| {
      r := r + [Frame(cur.id, cur.index + 1)];
      if g[cur.id][cur.index].To? {
        r := r + [Frame(g[cur.id][cur.index].id, 0)];
      }
    }
  }

  /** Walks the inherited interfaces. It succeeds exactly when no inheritance path from the interface
      comes back to itself and all of them lead to interfaces. */
  method CheckInterface(g: Graph, root: nat) returns (r: InterfaceResult)
    requires Closed(g) && root in g
    ensures r == Inherits <==> Acceptable(g, Malformed(g), root)
    ensures r == Inherits <==> forall p :: IsPath(g, p) && p[0] == root ==> Simple(p) && NoLeaf(g[p[|p| - 1]])
    ensures r == CyclicInheritance ==> Returns(g, root)
    ensures r == NotAnInterface ==> Meets(g, Malformed(g), root)
  {
    ghost var bad := Malformed(g);
    ExploredExactly(g, bad, root);
    InheritsExactly(g, root);
    Started(g, bad, root);
    hide *;
    var frames := [Frame(root, 0)];
    NoneLeft(g, frames);
    while frames != []
      invariant StackOk(g, bad, root, frames) && NoLeafPassed(g, frames)
      decreases StackWork(g, bad, root, frames)
    {
      var cur := frames[|frames| - 1];
      StackFacts(g, bad, root, frames, cur);
      if cur.index == 0 {
        var found := OnStack(frames[..|frames| - 1], cur.id);
        if found {
          Fails(g, bad, root, frames);
          return CyclicInheritance;
        }
      }
      if cur.index < |g[cur.id]| && g[cur.id][cur.index].Leaf? {
        MalformedHere(g, cur.id, cur.index);
        Fails(g, bad, root, frames);
        return NotAnInterface;
      }
      NoLeafLeft(g, frames);
      Step(g, bad, root, frames);
      frames := Follow(g, frames);
    }
    NothingLeft(g, bad, root);
    return Inherits;
  }

  /** Walks the fields of structs by value. It succeeds exactly when no struct reachable from this one
      contains itself, all of them have a field, and none has a union: the source reads the first field of a
      struct without looking whether there is one, and its place among the members of a union never moves, so
      that it takes the return from the first member for a recursion. */
  method CheckStruct(g: Graph, unions: set<nat>, root: nat) returns (r: StructResult)
    requires Closed(g) && root in g
    ensures r == NotRecursed <==> Acceptable(g, Empty(g) + unions, root)
    ensures r == NotRecursed <==> forall p :: IsPath(g, p) && p[0] == root ==>
              Simple(p) && g[p[|p| - 1]] != [] && p[|p| - 1] !in unions
    ensures r == Recursed ==> Returns(g, root) || Meets(g, unions, root)
    ensures r == NoFirstField ==> Meets(g, Empty(g), root)
  {
    ghost var bad := Empty(g) + unions;
    ExploredExactly(g, bad, root);
    UnrecursedExactly(g, unions, root);
    Started(g, bad, root);
    hide *;
    var frames := [Frame(root, 0)];
    var walkedObjects: set<nat> := {};
    while frames != []
      invariant StackOk(g, bad, root, frames)
      invariant walkedObjects == WalkedObjects(frames)
      decreases StackWork(g, bad, root, frames)
    {
      var cur := frames[|frames| - 1];
      StackFacts(g, bad, root, frames, cur);
      var child := if cur.index < |g[cur.id]| && g[cur.id][cur.index].To? then g[cur.id][cur.index].id else 0;
      Objects(g, bad, root, frames, child);
      if cur.index == 0 {
        if cur.id in walkedObjects {
          Fails(g, bad, root, frames);
          return Recursed;
        }
        walkedObjects := walkedObjects + {cur.id};
        if |g[cur.id]| == 0 {
          EmptyHere(g, cur.id);
          Fails(g, bad, root, frames);
          MeetsHere(g, bad, Empty(g), root, frames);
          return NoFirstField;
        }
      } else if cur.id in unions {
        Fails(g, bad, root, frames);
        MeetsHere(g, bad, unions, root, frames);
        return Recursed;
      }
      NotEmptyHere(g, bad, unions, root, frames);
      Step(g, bad, root, frames);
      if cur.index >= |g[cur.id]| {
        walkedObjects := walkedObjects - {cur.id};
      }
      SteppedIs(g, frames);
      frames := Follow(g, frames);
    }
    NothingLeft(g, bad, root);
    return NotRecursed;
  }

  lemma MeetsHere(g: Graph, bad: set<nat>, some: set<nat>, root: nat, fs: seq<Frame>)
    requires Closed(g) && root in g && fs != [] && StackOk(g, bad, root, fs) && fs[|fs| - 1].id in some
    ensures Meets(g, some, root)
  {
    var (below, f) := (fs[..|fs| - 1], fs[|fs| - 1]);
    WaitingMeans(g, bad, root, below, f.id);
    var p := StackPath(g, bad, root, below, f.id);
    assert p[|p| - 1] in some;
  }

  /** A struct with a union of one item, which has a field: the check ends as if the struct held itself. */
  method ChecksUnion() returns (r: StructResult)
    ensures r == Recursed
  {
    var g: Graph := map[0 := [To(1)], 1 := [To(2)], 2 := [Leaf]];
    UnionOnTheWay(g);
    r := CheckStruct(g, {1}, 0);
  }

  lemma UnionOnTheWay(g: Graph)
    requires g == map[0 := [To(1)], 1 := [To(2)], 2 := [Leaf]]
    ensures Closed(g) && !Returns(g, 0) && !Meets(g, Empty(g), 0) && !Acceptable(g, Empty(g) + {1}, 0)
  {
    forall p | IsPath(g, p) && p[0] == 0
      ensures Simple(p) && p[|p| - 1] !in Empty(g)
    {
      if |p| > 1 {
        EdgeBetween(g, p, 0);
      }
      if |p| > 2 {
        EdgeBetween(g, p, 1);
      }
      if |p| > 3 {
        EdgeBetween(g, p, 2);
      }
    }
    assert To([0, 1][0 + 1]) in g[0] && IsPath(g, [0, 1]);
  }

  /** A struct without fields: the check reads its first field. */
  method ChecksNoField() returns (r: StructResult)
    ensures r == NoFirstField
  {
    var g: Graph := map[0 := []];
    OnlyItself(g);
    r := CheckStruct(g, {}, 0);
  }

  lemma EdgeBetween(g: Graph, p: seq<nat>, i: nat)
    requires IsPath(g, p) && i + 1 < |p|
    ensures p[i] in g && g[p[i]] != [] && To(p[i + 1]) in g[p[i]]
  {
    assert To(p[i + 1]) in g[p[i]];
  }

  lemma OnlyItself(g: Graph)
    requires g == map[0 := []]
    ensures !Returns(g, 0) && !Acceptable(g, Empty(g) + {}, 0) && !Meets(g, {}, 0)
  {
    forall p | IsPath(g, p)
      ensures p == [0]
    {
      if |p| > 1 {
        EdgeBetween(g, p, 0);
      }
    }
    assert IsPath(g, [0]) && 0 in Empty(g);
  }

  // ----- Facts for the two checks

  lemma StackFacts(g: Graph, bad: set<nat>, root: nat, fs: seq<Frame>, f: Frame)
    requires Closed(g) && root in g && fs != [] && StackOk(g, bad, root, fs) && f == fs[|fs| - 1]
    ensures f.id in g && f.index <= |g[f.id]|
    ensures f.index > 0 ==> f.id !in Ids(fs[..|fs| - 1])
  {
  }

  lemma SteppedIs(g: Graph, fs: seq<Frame>)
    requires fs != [] && fs[|fs| - 1].id in g
    ensures var (below, f) := (fs[..|fs| - 1], fs[|fs| - 1]);
            Stepped(g, fs) == if f.index >= |g[f.id]| then below
                              else if g[f.id][f.index].Leaf? then below + [Frame(f.id, f.index + 1)]
                              else below + [Frame(f.id, f.index + 1), Frame(g[f.id][f.index].id, 0)]
  {
  }

  lemma NothingLeft(g: Graph, bad: set<nat>, root: nat)
    requires Closed(g) && root in g && StackOk(g, bad, root, [])
    ensures Explored(g, bad, root, {})
  {
  }

  lemma MalformedHere(g: Graph, id: nat, k: nat)
    requires id in g && k < |g[id]| && g[id][k].Leaf?
    ensures id in Malformed(g)
  {
  }

  /** Every type that the frame has walked names an interface. */
  ghost predicate PassedNoLeaf(g: Graph, f: Frame) {
    f.index > 0 ==> f.id in g && forall j :: 0 <= j < |g[f.id]| && j < f.index ==> g[f.id][j].To?
  }

  ghost predicate NoLeafPassed(g: Graph, fs: seq<Frame>) {
    forall i :: 0 <= i < |fs| ==> PassedNoLeaf(g, fs[i])
  }

  lemma NoneLeft(g: Graph, fs: seq<Frame>)
    requires forall i :: 0 <= i < |fs| ==> fs[i].index == 0
    ensures NoLeafPassed(g, fs)
  {
  }

  /** An interface whose types have all been walked is not malformed. */
  lemma NoLeafLeft(g: Graph, fs: seq<Frame>)
    requires fs != [] && NoLeafPassed(g, fs)
    requires var f := fs[|fs| - 1]; f.id in g && (f.index < |g[f.id]| ==> g[f.id][f.index].To?)
    ensures var f := fs[|fs| - 1]; f.index >= |g[f.id]| ==> f.id !in Malformed(g)
    ensures NoLeafPassed(g, Stepped(g, fs))
  {
    assert PassedNoLeaf(g, fs[|fs| - 1]);
  }

  lemma EmptyHere(g: Graph, id: nat)
    requires id in g && g[id] == []
    ensures id in Empty(g)
  {
  }

  /** A node with a field is done with only if it is no union. */
  lemma NotEmptyHere(g: Graph, bad: set<nat>, unions: set<nat>, root: nat, fs: seq<Frame>)
    requires Closed(g) && root in g && fs != [] && StackOk(g, bad, root, fs) && bad == Empty(g) + unions
    requires var f := fs[|fs| - 1]; f.id in g && g[f.id] != [] && (f.index > 0 ==> f.id !in unions)
    ensures fs[|fs| - 1].index >= |g[fs[|fs| - 1].id]| ==> fs[|fs| - 1].id !in bad
  {
  }

  /** The objects marked as being walked: all on the stack, but the current one only once its first
      field has been looked at. */
  ghost function WalkedObjects(fs: seq<Frame>): set<nat> {
    if fs == [] then {} else
      Ids(fs[..|fs| - 1]) + if fs[|fs| - 1].index == 0 then {} else {fs[|fs| - 1].id}
  }

  lemma Objects(g: Graph, bad: set<nat>, root: nat, fs: seq<Frame>, c: nat)
    requires Closed(g) && root in g && fs != [] && StackOk(g, bad, root, fs)
    ensures var (below, f) := (fs[..|fs| - 1], fs[|fs| - 1]);
            && (f.index == 0 ==> WalkedObjects(fs) == Ids(below))
            && (f.index > 0 ==> WalkedObjects(fs) == Ids(below) + {f.id})
            && WalkedObjects(below + [Frame(f.id, f.index + 1)]) == Ids(below) + {f.id}
            && WalkedObjects(below + [Frame(f.id, f.index + 1), Frame(c, 0)]) == Ids(below) + {f.id}
            && (f.id !in Ids(below) ==> WalkedObjects(below) == Ids(below) + {f.id} - {f.id})
  {
    var (below, f) := (fs[..|fs| - 1], fs[|fs| - 1]);
    IdsSnoc(below, Frame(f.id, f.index + 1));
    assert (below + [Frame(f.id, f.index + 1)])[..|below|] == below;
    var gs := below + [Frame(f.id, f.index + 1), Frame(c, 0)];
    assert gs[..|gs| - 1] == below + [Frame(f.id, f.index + 1)];
    if below != [] {
      IdsSnoc(below[..|below| - 1], below[|below| - 1]);
      assert below == below[..|below| - 1] + [below[|below| - 1]];
    }
  }
}
