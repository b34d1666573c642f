/** Dividing bytecode into basic blocks (slake/opti/cfg/divide.cc, slake/opti/cfg.cc). */
module Cfg {

  datatype Value = U32(n: nat) | Label(id: nat) | OtherValue(tag: int)

  /** Only the opcodes that the division looks at are told apart. */
  datatype Opcode = JMP | BR | RET | Ordinary(code: nat)

  datatype Instruction = Instruction(opcode: Opcode, output: nat, sourceLoc: nat, operands: seq<Value>)

  type Program = seq<Instruction>

  type Graph = seq<Program>

  datatype DivideResult =
    | Divided(graph: Graph)
    | MalformedProgram(at: nat)
    | OutOfBounds // a target beyond the end: the source indexes past its instruction array

  predicate IsTerminator(ins: Instruction) {
    ins.opcode == JMP || ins.opcode == BR || ins.opcode == RET
  }

  predicate WellFormed(ins: Instruction) {
    match ins.opcode
    case JMP => |ins.operands| == 1 && ins.operands[0].U32?
    case BR => |ins.operands| == 3 && ins.operands[1].U32? && ins.operands[2].U32?
    case RET => |ins.operands| <= 1
    case Ordinary(_) => true
  }

  /** The targets of an instruction, in operand order. */
  function Targets(ins: Instruction): seq<nat>
    requires WellFormed(ins)
  {
    match ins.opcode
    case JMP => [ins.operands[0].n]
    case BR => [ins.operands[1].n, ins.operands[2].n]
    case _ => []
  }

  ghost predicate AllWellFormed(p: Program) {
    forall i :: 0 <= i < |p| ==> WellFormed(p[i])
  }

  /** t is a target somewhere in p. */
  ghost predicate IsTarget(p: Program, t: nat)
    requires AllWellFormed(p)
  {
    exists i :: 0 <= i < |p| && t in Targets(p[i])
  }

  /** t is where some block has to begin: a target, or what follows a terminator. */
  ghost predicate IsBoundary(p: Program, t: nat)
    requires AllWellFormed(p)
  {
    || IsTarget(p, t)
    || (0 < t <= |p| && (p[t - 1].opcode == JMP || p[t - 1].opcode == BR))
    || (0 < t < |p| && p[t - 1].opcode == RET)
  }

  // ----- Ordered sets of offsets

  ghost predicate Increasing(s: seq<nat>) {
    forall i, j :: 0 <= i < j < |s| ==> s[i] < s[j]
  }

  function Insert(s: seq<nat>, x: nat): (r: seq<nat>)
    requires Increasing(s)
    ensures Increasing(r) && forall y :: y in r <==> y in s || y == x
  {
    if s == [] || x < s[0] then [x] + s
    else if x == s[0] then s
    else
      var r := Insert(s[1..], x);
      assert s == [s[0]] + s[1..];
      assert forall i :: 0 <= i < |r| ==> r[i] in r;
      [s[0]] + r
  }

  function InsertAll(s: seq<nat>, xs: seq<nat>): (r: seq<nat>)
    requires Increasing(s)
    ensures Increasing(r) && forall y :: y in r <==> y in s || y in xs
    decreases |xs|
  {
    if xs == [] then s else
      assert xs == [xs[0]] + xs[1..];
      InsertAll(Insert(s, xs[0]), xs[1..])
  }

  /** What the i-th of size instructions adds to the boundaries. */
  function Added(ins: Instruction, i: nat, size: nat): seq<nat>
    requires WellFormed(ins)
  {
    match ins.opcode
    case JMP => [i + 1] + Targets(ins)
    case BR => [i + 1] + Targets(ins)
    case RET => if i + 1 < size then [i + 1] else []
    case _ => []
  }

  function BoundariesUpTo(p: Program, n: nat): (b: seq<nat>)
    requires n <= |p| && forall i :: 0 <= i < n ==> WellFormed(p[i])
    ensures Increasing(b)
  {
    if n == 0 then [] else InsertAll(BoundariesUpTo(p, n - 1), Added(p[n - 1], n - 1, |p|))
  }

  lemma BoundariesNext(p: Program, n: nat)
    requires n < |p| && forall i :: 0 <= i <= n ==> WellFormed(p[i])
    ensures BoundariesUpTo(p, n + 1) == InsertAll(BoundariesUpTo(p, n), Added(p[n], n, |p|))
    ensures forall t :: t in BoundariesUpTo(p, n + 1) <==> t in BoundariesUpTo(p, n) || t in Added(p[n], n, |p|)
  {
  }

  function Boundaries(p: Program): (b: seq<nat>)
    requires AllWellFormed(p)
    ensures Increasing(b)
  {
    BoundariesUpTo(p, |p|)
  }

  /** One of the first n instructions adds t. */
  ghost predicate AddedBefore(p: Program, n: nat, t: nat)
    requires n <= |p| && AllWellFormed(p)
  {
    exists i :: 0 <= i < n && t in Added(p[i], i, |p|)
  }

  lemma AddedByNext(p: Program, n: nat, t: nat)
    requires n < |p| && AllWellFormed(p)
    ensures AddedBefore(p, n + 1, t) <==> AddedBefore(p, n, t) || t in Added(p[n], n, |p|)
  {
    hide Added;
  }

  lemma {:induction false} BoundariesUpToAre(p: Program, n: nat, t: nat)
    requires n <= |p| && AllWellFormed(p)
    ensures t in BoundariesUpTo(p, n) <==> AddedBefore(p, n, t)
  {
    hide Added, Increasing;
    if n > 0 {
      BoundariesUpToAre(p, n - 1, t);
      BoundariesNext(p, n - 1);
      AddedByNext(p, n - 1, t);
      hide *;
    }
  }

  lemma BoundariesAre(p: Program, t: nat)
    requires AllWellFormed(p)
    ensures t in Boundaries(p) <==> IsBoundary(p, t)
  {
    BoundariesUpToAre(p, |p|, t);
    hide BoundariesUpTo;
    if IsTarget(p, t) {
      var i :| 0 <= i < |p| && t in Targets(p[i]);
      assert t in Added(p[i], i, |p|);
    } else if IsBoundary(p, t) {
      assert t in Added(p[t - 1], t - 1, |p|);
    }
    if AddedBefore(p, |p|, t) {
      AddsBoundary(p, t);
    }
    hide IsBoundary;
  }

  lemma AddsBoundary(p: Program, t: nat)
    requires AllWellFormed(p) && AddedBefore(p, |p|, t)
    ensures IsBoundary(p, t)
  {
    var i :| 0 <= i < |p| && t in Added(p[i], i, |p|);
    assert t in Targets(p[i]) ==> IsTarget(p, t);
    hide IsTarget;
  }

  // ----- Labels and blocks

  /** Where block k begins and where it ends. */
  function Start(b: seq<nat>, k: nat): nat
    requires k <= |b|
  {
    if k == 0 then 0 else b[k - 1]
  }

  function End(b: seq<nat>, size: nat, k: nat): nat
    requires k <= |b|
  {
    if k < |b| then b[k] else size
  }

  type LabelMap = map<nat, nat>

  /** The label of t is the size of the map at its first insertion. */
  function Labelled(labels: LabelMap, t: nat): LabelMap {
    if t in labels then labels else labels[t := |labels|]
  }

  function LabelsUpTo(b: seq<nat>, n: nat): LabelMap
    requires n <= |b| + 1
  {
    if n == 0 then map[0 := 0] else Labelled(LabelsUpTo(b, n - 1), Start(b, n - 1))
  }

  function Labels(b: seq<nat>): LabelMap {
    LabelsUpTo(b, |b| + 1)
  }

  /** Boundary 0 takes no label of its own, so every later label is one lower. */
  function Shift(b: seq<nat>): nat {
    if b != [] && b[0] == 0 then 1 else 0
  }

  ghost predicate Among(b: seq<nat>, n: nat, t: nat)
    requires n <= |b|
  {
    exists k :: 0 <= k < n && b[k] == t
  }

  /** What is known of the first n labels. */
  ghost predicate LabelledUpTo(m: LabelMap, b: seq<nat>, n: nat)
    requires 0 < n <= |b| + 1
  {
    && (forall t: nat :: t in m <==> t == 0 || Among(b, n - 1, t))
    && m[0] == 0 && |m| == (if n == 1 then 1 else n - Shift(b))
    && (forall k :: 0 <= k < n - 1 && b[k] != 0 ==> b[k] in m && m[b[k]] == k + 1 - Shift(b))
  }

  lemma AmongNext(b: seq<nat>, n: nat)
    requires n < |b| && Increasing(b)
    ensures forall t: nat :: Among(b, n + 1, t) <==> Among(b, n, t) || t == b[n]
    ensures !Among(b, n, b[n]) && (b[n] == 0 ==> n == 0)
  {
    assert n > 0 ==> b[0] < b[n];
    forall t: nat
      ensures Among(b, n + 1, t) <==> Among(b, n, t) || t == b[n]
    {
      if t == b[n] {
        assert 0 <= n < n + 1 && b[n] == t;
      }
    }
  }

  lemma LabelNext(m: LabelMap, b: seq<nat>, n: nat)
    requires Increasing(b) && 0 < n <= |b| && LabelledUpTo(m, b, n)
    ensures LabelledUpTo(Labelled(m, b[n - 1]), b, n + 1)
  {
    AmongNext(b, n - 1);
    hide Increasing, Among;
    if b[n - 1] == 0 {
      assert Labelled(m, b[n - 1]) == m;
    } else {
      assert Labelled(m, b[n - 1]) == m[b[n - 1] := |m|];
      LabelFresh(m, b, n);
    }
    hide *;
  }

  /** A label is the number of those before it. */
  lemma LabelFresh(m: LabelMap, b: seq<nat>, n: nat)
    requires 0 < n <= |b| && LabelledUpTo(m, b, n) && b[n - 1] !in m && b[n - 1] != 0
    requires forall t: nat :: Among(b, n, t) <==> Among(b, n - 1, t) || t == b[n - 1]
    ensures LabelledUpTo(m[b[n - 1] := |m|], b, n + 1)
  {
    hide Among;
    var r := m[b[n - 1] := |m|];
    assert n > 1 ==> Shift(b) <= 1 && |m| == n - Shift(b);
    forall k | 0 <= k < n && b[k] != 0
      ensures b[k] in r && r[b[k]] == k + 1 - Shift(b)
    {
      if k < n - 1 {
        assert b[k] in m && m[b[k]] == k + 1 - Shift(b);
      }
    }
  }

  lemma {:induction false} LabelsUpToAre(b: seq<nat>, n: nat)
    requires Increasing(b) && 0 < n <= |b| + 1
    ensures LabelledUpTo(LabelsUpTo(b, n), b, n)
  {
    if n == 1 {
      assert LabelsUpTo(b, 1) == map[0 := 0];
    } else {
      LabelsUpToAre(b, n - 1);
      LabelNext(LabelsUpTo(b, n - 1), b, n - 1);
    }
  }

  lemma LabelsAre(b: seq<nat>)
    requires Increasing(b)
    ensures forall t :: t in Labels(b) <==> t == 0 || t in b
    ensures Labels(b)[0] == 0
    ensures forall k :: 0 <= k < |b| && b[k] != 0 ==> Labels(b)[b[k]] == k + 1 - Shift(b)
    ensures forall t :: t in Labels(b) ==> Labels(b)[t] <= |b|
  {
    LabelsUpToAre(b, |b| + 1);
    forall t: nat | t in b
      ensures Among(b, |b|, t)
    {
      var k :| 0 <= k < |b| && b[k] == t;
    }
  }

  /** The instruction with its targets turned into labels. */
  function Rewrite(ins: Instruction, labels: LabelMap): Instruction
    requires WellFormed(ins) && forall t :: t in Targets(ins) ==> t in labels
  {
    match ins.opcode
    case JMP => ins.(operands := ins.operands[0 := Label(labels[ins.operands[0].n])])
    case BR =>
      var (onTrue, onFalse) := (Label(labels[ins.operands[1].n]), Label(labels[ins.operands[2].n]));
      ins.(operands := ins.operands[1 := onTrue][2 := onFalse])
    case _ => ins
  }

  /** Every target of p has a label. */
  ghost predicate Covers(labels: LabelMap, p: Program) {
    AllWellFormed(p) && forall i, t :: 0 <= i < |p| && t in Targets(p[i]) ==> t in labels
  }

  function RewriteAll(p: Program, labels: LabelMap): (r: Program)
    requires Covers(labels, p)
    ensures |r| == |p| && forall i :: 0 <= i < |p| ==> r[i] == Rewrite(p[i], labels)
  {
    if p == [] then [] else
      assert forall i :: 0 <= i < |p| - 1 ==> p[1..][i] == p[i + 1];
      [Rewrite(p[0], labels)] + RewriteAll(p[1..], labels)
  }

  /** The first n blocks of all, cut at the offsets of b. */
  ghost predicate CutUpTo(g: Graph, all: Program, b: seq<nat>, n: nat)
    requires n <= |b| + 1
  {
    && |g| == n
    && (forall k {:trigger g[k]} :: 0 <= k < n ==>
          Start(b, k) <= End(b, |all|, k) <= |all| && g[k] == all[Start(b, k)..End(b, |all|, k)])
  }

  ghost predicate Cut(g: Graph, all: Program, b: seq<nat>) {
    CutUpTo(g, all, b, |b| + 1)
  }

  /** g is p cut at its boundaries, with labels for targets. */
  ghost predicate IsGraphOf(g: Graph, p: Program) {
    && AllWellFormed(p) && InBounds(p)
    && Covers(Labels(Boundaries(p)), p)
    && Cut(g, RewriteAll(p, Labels(Boundaries(p))), Boundaries(p))
  }

  ghost predicate InBounds(p: Program)
    requires AllWellFormed(p)
  {
    forall t: nat :: IsTarget(p, t) ==> t <= |p|
  }

  lemma InsertNone(s: seq<nat>)
    requires Increasing(s)
    ensures InsertAll(s, []) == s
  {
  }

  lemma InsertOne(s: seq<nat>, x: nat)
    requires Increasing(s)
    ensures InsertAll(s, [x]) == Insert(s, x)
  {
    hide Insert;
    assert [x][1..] == [];
  }

  lemma InsertTwo(s: seq<nat>, x: nat, y: nat)
    requires Increasing(s)
    ensures InsertAll(s, [x, y]) == Insert(Insert(s, x), y)
  {
    hide Insert;
    var r := Insert(s, x);
    assert [x, y][1..] == [y] && [y][1..] == [];
    assert InsertAll(r, [y]) == InsertAll(Insert(r, y), []);
  }

  lemma InsertThree(s: seq<nat>, x: nat, y: nat, z: nat)
    requires Increasing(s)
    ensures InsertAll(s, [x, y, z]) == Insert(Insert(Insert(s, x), y), z)
  {
    hide Insert;
    InsertTwo(Insert(s, x), y, z);
    assert [x, y, z][1..] == [y, z];
  }

  /** Collects the boundaries, or finds the first malformed instruction. */
  method CollectBoundaries(p: Program) returns (b: seq<nat>, malformed: bool, at: nat)
    ensures malformed <==> !AllWellFormed(p)
    ensures malformed ==> at < |p| && !WellFormed(p[at]) && forall j :: 0 <= j < at ==> WellFormed(p[j])
    ensures !malformed ==> b == Boundaries(p)
  {
    hide Insert, InsertAll, Increasing;
    b, malformed, at := [], false, 0;
    for i := 0 to |p|
      invariant forall j :: 0 <= j < i ==> WellFormed(p[j])
      invariant b == BoundariesUpTo(p, i)
    {
      var ins := p[i];
      if WellFormed(ins) {
        BoundariesNext(p, i);
        InsertNone(b);
      }
      match ins.opcode {
        case JMP =>
          if |ins.operands| != 1 || !ins.operands[0].U32? {
            return b, true, i;
          }
          InsertTwo(b, i + 1, ins.operands[0].n);
          assert Added(ins, i, |p|) == [i + 1, ins.operands[0].n];
          b := Insert(b, i + 1);
          b := Insert(b, ins.operands[0].n);
        case BR =>
          if |ins.operands| != 3 || !ins.operands[1].U32? || !ins.operands[2].U32? {
            return b, true, i;
          }
          InsertThree(b, i + 1, ins.operands[1].n, ins.operands[2].n);
          assert Added(ins, i, |p|) == [i + 1, ins.operands[1].n, ins.operands[2].n];
          b := Insert(b, i + 1);
          b := Insert(b, ins.operands[1].n);
          b := Insert(b, ins.operands[2].n);
        case RET =>
          if |ins.operands| > 1 {
            return b, true, i;
          }
          if i + 1 < |p| {
            InsertOne(b, i + 1);
            b := Insert(b, i + 1);
          }
        case Ordinary(_) =>
      }
    }
  }

  /** Numbers the blocks: every block's beginning gets the next label, unless it has one. */
  method NumberBlocks(b: seq<nat>) returns (labels: LabelMap)
    requires Increasing(b)
    ensures labels == Labels(b)
  {
    labels := map[0 := 0];
    for i := 0 to |b| + 1
      invariant labels == LabelsUpTo(b, i)
    {
      var blockBegin := if i == 0 then 0 else b[i - 1];
      if blockBegin !in labels {
        labels := labels[blockBegin := |labels|];
      }
    }
  }

  lemma LabelsCover(p: Program)
    requires AllWellFormed(p)
    ensures Covers(Labels(Boundaries(p)), p)
  {
    LabelsAre(Boundaries(p));
    forall i, t | 0 <= i < |p| && t in Targets(p[i])
      ensures t in Labels(Boundaries(p))
    {
      assert IsTarget(p, t);
      BoundariesAre(p, t);
    }
  }

  /** The last boundary tells whether any target is past the end. */
  lemma LastBoundary(p: Program, b: seq<nat>)
    requires AllWellFormed(p) && b == Boundaries(p)
    ensures InBounds(p) <==> b == [] || b[|b| - 1] <= |p|
    ensures InBounds(p) ==> forall k :: 0 <= k < |b| ==> b[k] <= |p|
  {
    if b != [] && b[|b| - 1] > |p| {
      BoundariesAre(p, b[|b| - 1]);
      assert b[|b| - 1] in b && IsTarget(p, b[|b| - 1]);
    } else {
      forall t: nat | IsTarget(p, t)
        ensures t <= |p|
      {
        BoundariesAre(p, t);
        var k :| 0 <= k < |b| && b[k] == t;
        assert k < |b| - 1 ==> b[k] < b[|b| - 1];
      }
      assert forall k :: 0 <= k < |b| - 1 ==> b[k] < b[|b| - 1];
    }
  }

  /** Blocks begin, apart from the first, at the operands of jumps and the last two of branches, after every jump and
      branch, and after every return that is not the last instruction. */
  lemma BoundariesExactly(p: Program, t: nat)
    requires AllWellFormed(p)
    ensures t in Boundaries(p) <==>
              || (exists i :: 0 <= i < |p| && p[i].opcode == JMP && p[i].operands[0].n == t)
              || (exists i :: 0 <= i < |p| && p[i].opcode == BR && (p[i].operands[1].n == t || p[i].operands[2].n == t))
              || (0 < t <= |p| && (p[t - 1].opcode == JMP || p[t - 1].opcode == BR))
              || (0 < t < |p| && p[t - 1].opcode == RET)
  {
    BoundariesAre(p, t);
    hide Boundaries;
    if i :| 0 <= i < |p| && p[i].opcode == JMP && p[i].operands[0].n == t {
      assert t in Targets(p[i]);
    }
    if i :| 0 <= i < |p| && p[i].opcode == BR && (p[i].operands[1].n == t || p[i].operands[2].n == t) {
      assert t in Targets(p[i]);
    }
  }

  /** A jump without exactly one target, a branch without a condition and two targets, or a return of more than one
      value. */
  predicate Malformed(ins: Instruction) {
    || (ins.opcode == JMP && (|ins.operands| != 1 || !ins.operands[0].U32?))
    || (ins.opcode == BR && (|ins.operands| != 3 || !ins.operands[1].U32? || !ins.operands[2].U32?))
    || (ins.opcode == RET && |ins.operands| > 1)
  }

  predicate JumpsBeyond(ins: Instruction, size: nat)
    requires !Malformed(ins)
  {
    || (ins.opcode == JMP && ins.operands[0].n > size)
    || (ins.opcode == BR && (ins.operands[1].n > size || ins.operands[2].n > size))
  }

  lemma MalformedExactly(p: Program)
    ensures AllWellFormed(p) <==> forall i :: 0 <= i < |p| ==> !Malformed(p[i])
  {
    assert forall i :: 0 <= i < |p| ==> (WellFormed(p[i]) <==> !Malformed(p[i]));
  }

  lemma BeyondExactly(p: Program)
    requires AllWellFormed(p)
    ensures forall i :: 0 <= i < |p| ==> !Malformed(p[i])
    ensures InBounds(p) <==> forall i :: 0 <= i < |p| ==> !JumpsBeyond(p[i], |p|)
  {
    MalformedExactly(p);
    if InBounds(p) {
      forall i | 0 <= i < |p|
        ensures !JumpsBeyond(p[i], |p|)
      {
        assert forall t :: t in Targets(p[i]) ==> IsTarget(p, t);
        if p[i].opcode == JMP {
          assert p[i].operands[0].n in Targets(p[i]);
        } else if p[i].opcode == BR {
          assert p[i].operands[1].n in Targets(p[i]) && p[i].operands[2].n in Targets(p[i]);
        }
      }
    }
  }

  /** Divides a program into basic blocks. */
  method Divide(p: Program) returns (r: DivideResult)
    ensures r.MalformedProgram? <==> !AllWellFormed(p)
    ensures r.MalformedProgram? ==> r.at < |p| && !WellFormed(p[r.at]) && forall j :: 0 <= j < r.at ==> WellFormed(p[j])
    ensures r.Divided? <==> AllWellFormed(p) && InBounds(p)
    ensures r.Divided? ==> IsGraphOf(r.graph, p)
    ensures r.MalformedProgram? <==> exists i :: 0 <= i < |p| && Malformed(p[i])
    ensures r.OutOfBounds? <==> AllWellFormed(p) && exists i :: 0 <= i < |p| && JumpsBeyond(p[i], |p|)
  {
    MalformedExactly(p);
    if AllWellFormed(p) {
      BeyondExactly(p);
    }
    var b, malformed, at := CollectBoundaries(p);
    if malformed {
      return MalformedProgram(at);
    }
    var labels := NumberBlocks(b);
    LabelsCover(p);
    LastBoundary(p, b);
    if b != [] && b[|b| - 1] > |p| {
      return OutOfBounds;
    }
    var graph := CutAll(p, labels, b);
    return Divided(graph);
  }

  method CutAll(p: Program, labels: LabelMap, b: seq<nat>) returns (graph: Graph)
    requires Covers(labels, p) && Increasing(b) && forall k :: 0 <= k < |b| ==> b[k] <= |p|
    ensures Cut(graph, RewriteAll(p, labels), b)
  {
    ghost var all := RewriteAll(p, labels);
    assert |all| == |p|;
    hide Covers, RewriteAll;
    graph := [];
    for i := 0 to |b| + 1
      invariant CutUpTo(graph, all, b, i)
    {
      var blockBegin, blockEnd := if i == 0 then 0 else b[i - 1], if i < |b| then b[i] else |p|;
      var block := CutBlock(p, labels, blockBegin, blockEnd);
      ghost var longer := CutStep(graph, all, b, i, block);
      graph := graph + [block];
    }
  }

  lemma CutStep(g: Graph, all: Program, b: seq<nat>, i: nat, block: Program) returns (r: Graph)
    requires i <= |b| && CutUpTo(g, all, b, i)
    requires Start(b, i) <= End(b, |all|, i) <= |all| && block == all[Start(b, i)..End(b, |all|, i)]
    ensures r == g + [block] && CutUpTo(r, all, b, i + 1)
  {
    r := g + [block];
    forall k: nat | k < i + 1
      ensures Start(b, k) <= End(b, |all|, k) <= |all| && r[k] == all[Start(b, k)..End(b, |all|, k)]
    {
      assert k < i ==> r[k] == g[k];
    }
  }

  method CutBlock(p: Program, labels: LabelMap, blockBegin: nat, blockEnd: nat) returns (block: Program)
    requires Covers(labels, p) && blockBegin <= blockEnd <= |p|
    ensures block == RewriteAll(p, labels)[blockBegin..blockEnd]
  {
    ghost var all := RewriteAll(p, labels);
    hide RewriteAll, Rewrite;
    block := [];
    for j := blockBegin to blockEnd
      invariant block == all[blockBegin..j]
    {
      var ins := CopyInstruction(p[j], labels);
      assert all[blockBegin..j + 1] == all[blockBegin..j] + [all[j]];
      block := block + [ins];
    }
  }

  method CopyInstruction(original: Instruction, labels: LabelMap) returns (ins: Instruction)
    requires WellFormed(original) && forall t :: t in Targets(original) ==> t in labels
    ensures ins == Rewrite(original, labels)
    ensures ins.opcode == original.opcode && ins.output == original.output && ins.sourceLoc == original.sourceLoc
    ensures |ins.operands| == |original.operands|
    ensures forall k :: 0 <= k < |ins.operands| ==>
              if (ins.opcode == JMP && k == 0) || (ins.opcode == BR && (k == 1 || k == 2)) then
                ins.operands[k] == Label(labels[original.operands[k].n])
              else ins.operands[k] == original.operands[k]
  {
    ins := original;
    match ins.opcode {
      case JMP =>
        assert ins.operands[0].n in Targets(original);
        ins := ins.(operands := ins.operands[0 := Label(labels[ins.operands[0].n])]);
      case BR =>
        assert ins.operands[1].n in Targets(original) && ins.operands[2].n in Targets(original);
        ins := ins.(operands := ins.operands[1 := Label(labels[ins.operands[1].n])]);
        ins := ins.(operands := ins.operands[2 := Label(labels[ins.operands[2].n])]);
      case _ =>
    }
  }

  // ----- What the blocks are

  ghost function Flatten(g: Graph): Program {
    if g == [] then [] else g[0] + Flatten(g[1..])
  }

  lemma {:induction false} FlattenFrom(g: Graph, all: Program, b: seq<nat>, k: nat)
    requires Cut(g, all, b) && k < |g|
    ensures Start(b, k) <= |all| && Flatten(g[k..]) == all[Start(b, k)..]
    decreases |g| - k
  {
    assert g[k..] == [g[k]] + g[k + 1..];
    if k + 1 < |g| {
      FlattenFrom(g, all, b, k + 1);
      assert g[k] == all[Start(b, k)..Start(b, k + 1)];
      assert all[Start(b, k)..] == all[Start(b, k)..Start(b, k + 1)] + all[Start(b, k + 1)..];
    } else {
      assert g[k + 1..] == [];
    }
  }

  /** The blocks, one after the other, are the program with its targets turned into labels. */
  lemma BlocksConcatenate(g: Graph, p: Program)
    requires IsGraphOf(g, p)
    ensures Flatten(g) == RewriteAll(p, Labels(Boundaries(p)))
  {
    FlattenFrom(g, RewriteAll(p, Labels(Boundaries(p))), Boundaries(p), 0);
    assert g[0..] == g;
  }

  /** No boundary, so no target, lies strictly inside a block. */
  lemma NothingInside(p: Program, t: nat, k: nat)
    requires AllWellFormed(p) && IsBoundary(p, t) && k <= |Boundaries(p)|
    ensures !(Start(Boundaries(p), k) < t < End(Boundaries(p), |p|, k))
  {
    var b := Boundaries(p);
    BoundariesAre(p, t);
    var i :| 0 <= i < |b| && b[i] == t;
    if k > 0 && i < k - 1 {
      assert b[i] < b[k - 1];
    } else if i > k {
      assert b[k] < b[i];
    }
  }

  /** A terminator is always the last instruction of its block. */
  lemma TerminatorsLast(g: Graph, p: Program, k: nat, j: nat)
    requires IsGraphOf(g, p) && k < |g| && j < |g[k]| && IsTerminator(g[k][j])
    ensures j == |g[k]| - 1
  {
    var b := Boundaries(p);
    var at := Start(b, k) + j;
    assert g[k][j] == Rewrite(p[at], Labels(b));
    if j < |g[k]| - 1 {
      assert IsBoundary(p, at + 1);
      NothingInside(p, at + 1, k);
    }
  }
}
