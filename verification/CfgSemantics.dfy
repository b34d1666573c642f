/** Running the flat program and running its graph of basic blocks come to the same. */
module CfgSemantics {
  import opened Cfg

  /** What ordinary instructions do to the machine state, and how a condition operand is read. */
  datatype Machine<!S> = Machine(exec: (Instruction, S) -> S, test: (Value, S) -> bool)

  /** A configuration at position p; one that has returned; one that ran off the end. */
  datatype Config<P, S> = At(p: P, s: S) | Returned(ret: Instruction, s: S) | OffEnd(s: S)

  datatype Pos = Pos(block: nat, index: nat)

  // ----- The flat program

  function FlatStep<S>(m: Machine<S>, p: Program, c: Config<nat, S>): Config<nat, S>
    requires AllWellFormed(p)
  {
    match c
    case At(pc, s) =>
      if pc >= |p| then OffEnd(s) else
        var ins := p[pc];
        (match ins.opcode
         case JMP => At(ins.operands[0].n, s)
         case BR => At(if m.test(ins.operands[0], s) then ins.operands[1].n else ins.operands[2].n, s)
         case RET => Returned(ins, s)
         case Ordinary(_) => At(pc + 1, m.exec(ins, s)))
    case _ => c
  }

  function FlatRun<S>(m: Machine<S>, p: Program, c: Config<nat, S>, n: nat): Config<nat, S>
    requires AllWellFormed(p)
  {
    if n == 0 then c else FlatStep(m, p, FlatRun(m, p, c, n - 1))
  }

  // ----- The graph

  /** A graph instruction names blocks where the flat one has targets. */
  predicate LabelsWellFormed(ins: Instruction) {
    match ins.opcode
    case JMP => |ins.operands| == 1 && ins.operands[0].Label?
    case BR => |ins.operands| == 3 && ins.operands[1].Label? && ins.operands[2].Label?
    case _ => true
  }

  ghost predicate GraphWellFormed(g: Graph) {
    forall k, j :: 0 <= k < |g| && 0 <= j < |g[k]| ==> LabelsWellFormed(g[k][j])
  }

  /** Execution that reaches the end of a block falls through to the next one. */
  function Settle(g: Graph, p: Pos): (r: Pos)
    ensures r.block < |g| ==> r.index < |g[r.block]|
    decreases |g| - p.block
  {
    if p.block < |g| && p.index >= |g[p.block]| then Settle(g, Pos(p.block + 1, 0)) else p
  }

  function GraphStep<S>(m: Machine<S>, g: Graph, c: Config<Pos, S>): Config<Pos, S>
    requires GraphWellFormed(g)
  {
    match c
    case At(p, s) =>
      var q := Settle(g, p);
      if q.block >= |g| then OffEnd(s) else
        var ins := g[q.block][q.index];
        (match ins.opcode
         case JMP => At(Pos(ins.operands[0].id, 0), s)
         case BR => At(Pos(if m.test(ins.operands[0], s) then ins.operands[1].id else ins.operands[2].id, 0), s)
         case RET => Returned(ins, s)
         case Ordinary(_) => At(Pos(q.block, q.index + 1), m.exec(ins, s)))
    case _ => c
  }

  function GraphRun<S>(m: Machine<S>, g: Graph, c: Config<Pos, S>, n: nat): Config<Pos, S>
    requires GraphWellFormed(g)
  {
    if n == 0 then c else GraphStep(m, g, GraphRun(m, g, c, n - 1))
  }

  // ----- When labels name the right blocks

  /** Every target's label names a block that begins at the target. */
  ghost predicate LabelsNameTargets(p: Program)
    requires AllWellFormed(p)
  {
    var b := Boundaries(p);
    forall t: nat :: IsTarget(p, t) ==> t in Labels(b) && Labels(b)[t] <= |b| && Start(b, Labels(b)[t]) == t
  }

  /** Instruction 0 is no target, or it is the only one. */
  ghost predicate ZeroTargetFree(p: Program)
    requires AllWellFormed(p)
  {
    IsTarget(p, 0) ==> forall t: nat :: IsTarget(p, t) ==> t == 0
  }

  lemma FirstBoundary(p: Program)
    requires AllWellFormed(p)
    ensures IsTarget(p, 0) <==> Boundaries(p) != [] && Boundaries(p)[0] == 0
  {
    var b := Boundaries(p);
    BoundariesAre(p, 0);
    if 0 in b {
      assert forall i :: 0 < i < |b| ==> b[0] < b[i];
      var k :| 0 <= k < |b| && b[k] == 0;
    }
  }

  /** The division numbers its blocks correctly exactly when instruction 0 is not a target
      next to others: boundary 0 makes every later label one too low. */
  lemma LabelsRightExactly(p: Program)
    requires AllWellFormed(p)
    ensures LabelsNameTargets(p) <==> ZeroTargetFree(p)
  {
    FirstBoundary(p);
    forall t: nat | IsTarget(p, t)
      ensures t in Labels(Boundaries(p)) && Labels(Boundaries(p))[t] <= |Boundaries(p)|
      ensures Start(Boundaries(p), Labels(Boundaries(p))[t]) == t <==> t == 0 || !IsTarget(p, 0)
    {
      BoundariesAre(p, t);
      LabelNames(Boundaries(p), t);
    }
    hide Boundaries, Labels, IsTarget;
  }

  /** Operand k of the instruction is a target. */
  predicate IsTargetOperand(ins: Instruction, k: nat) {
    (ins.opcode == JMP && k == 0) || (ins.opcode == BR && (k == 1 || k == 2))
  }

  lemma OneChange(p: Program, i: nat, k: nat)
    requires AllWellFormed(p) && i < |p| && k < |p[i].operands| && Covers(Labels(Boundaries(p)), p)
    ensures var (b, ins) := (Boundaries(p), Rewrite(p[i], Labels(Boundaries(p))));
            && |ins.operands| == |p[i].operands|
            && if IsTargetOperand(p[i], k) then
                 && p[i].operands[k].U32? && ins.operands[k].Label? && ins.operands[k].id <= |b|
                 && (ZeroTargetFree(p) ==> Start(b, ins.operands[k].id) == p[i].operands[k].n)
               else ins.operands[k] == p[i].operands[k]
  {
    var b := Boundaries(p);
    if IsTargetOperand(p[i], k) {
      var t := p[i].operands[k].n;
      assert t in Targets(p[i]) && IsTarget(p, t);
      BoundariesAre(p, t);
      LabelsAre(b);
      LabelsRightExactly(p);
    }
  }

  /** ins is the instruction was of p, but for its targets. */
  ghost predicate OneCarried(p: Program, ins: Instruction, was: Instruction)
    requires AllWellFormed(p)
  {
    && ins.opcode == was.opcode && ins.output == was.output && ins.sourceLoc == was.sourceLoc
    && |ins.operands| == |was.operands|
    && forall k :: 0 <= k < |was.operands| ==>
         if IsTargetOperand(was, k) then
           && was.operands[k].U32? && ins.operands[k].Label? && ins.operands[k].id <= |Boundaries(p)|
           && (ZeroTargetFree(p) ==> Start(Boundaries(p), ins.operands[k].id) == was.operands[k].n)
         else ins.operands[k] == was.operands[k]
  }

  lemma CarriedOver(p: Program, i: nat)
    requires AllWellFormed(p) && i < |p| && Covers(Labels(Boundaries(p)), p)
    ensures OneCarried(p, Rewrite(p[i], Labels(Boundaries(p))), p[i])
  {
    var ins := Rewrite(p[i], Labels(Boundaries(p)));
    hide Boundaries, Labels;
    forall k | 0 <= k < |p[i].operands|
      ensures if IsTargetOperand(p[i], k) then
                && p[i].operands[k].U32? && ins.operands[k].Label? && ins.operands[k].id <= |Boundaries(p)|
                && (ZeroTargetFree(p) ==> Start(Boundaries(p), ins.operands[k].id) == p[i].operands[k].n)
              else ins.operands[k] == p[i].operands[k]
    {
      OneChange(p, i, k);
    }
  }

  /** Put together again, the blocks have the instructions of the program: opcode, output, source location and
      number of operands of each, and all operands but the targets. A target has become the label of a block,
      and of the one that begins there, if instruction 0 is no target next to others. */
  lemma OnlyTargetsChange(g: Graph, p: Program)
    requires IsGraphOf(g, p)
    ensures |Flatten(g)| == |p|
    ensures forall i :: 0 <= i < |p| ==>
              var (ins, was) := (Flatten(g)[i], p[i]);
              && ins.opcode == was.opcode && ins.output == was.output && ins.sourceLoc == was.sourceLoc
              && |ins.operands| == |was.operands|
              && forall k :: 0 <= k < |was.operands| ==>
                   if (was.opcode == JMP && k == 0) || (was.opcode == BR && (k == 1 || k == 2)) then
                     && was.operands[k].U32? && ins.operands[k].Label? && ins.operands[k].id <= |Boundaries(p)|
                     && (ZeroTargetFree(p) ==> Start(Boundaries(p), ins.operands[k].id) == was.operands[k].n)
                   else ins.operands[k] == was.operands[k]
  {
    BlocksConcatenate(g, p);
    var labels := Labels(Boundaries(p));
    hide Flatten, Labels, Boundaries, Cut;
    forall i | 0 <= i < |p|
      ensures OneCarried(p, Flatten(g)[i], p[i])
    {
      CarriedOver(p, i);
    }
  }

  /** The label of a boundary names its block, unless boundary 0 has made it one too low. */
  lemma LabelNames(b: seq<nat>, t: nat)
    requires Increasing(b) && t in b
    ensures t in Labels(b) && Labels(b)[t] <= |b|
    ensures Start(b, Labels(b)[t]) == t <==> t == 0 || b[0] != 0
  {
    LabelsAre(b);
    hide Labels;
    var k :| 0 <= k < |b| && b[k] == t;
    assert k > 0 ==> b[0] < b[k] && b[k - 1] < b[k];
    assert t != 0 ==> Labels(b)[b[k]] == k + 1 - Shift(b);
  }

  // ----- Simulation

  /** Position q of the graph is offset pc of the program. */
  ghost predicate Located(g: Graph, p: Program, q: Pos, pc: nat) {
    && IsGraphOf(g, p) && q.block < |g| && q.index <= |g[q.block]| && pc == Start(Boundaries(p), q.block) + q.index
  }

  ghost predicate Corresponds<S>(g: Graph, p: Program, f: Config<nat, S>, c: Config<Pos, S>) {
    match (f, c)
    case (At(pc, s), At(q, t)) => s == t && Located(g, p, q, pc)
    case (Returned(i, s), Returned(j, t)) => i == j && s == t
    case (OffEnd(s), OffEnd(t)) => s == t
    case _ => false
  }

  lemma BlockSize(g: Graph, p: Program, k: nat)
    requires IsGraphOf(g, p) && k < |g|
    ensures |g| == |Boundaries(p)| + 1 && |g[k]| == End(Boundaries(p), |p|, k) - Start(Boundaries(p), k)
    ensures Start(Boundaries(p), k) <= End(Boundaries(p), |p|, k) <= |p| && AllWellFormed(p)
  {
    var b, all := Boundaries(p), RewriteAll(p, Labels(Boundaries(p)));
    assert Cut(g, all, b) && |all| == |p|;
    hide RewriteAll, Boundaries, Labels;
    assert g[k] == g[k];
    assert Start(b, k) <= End(b, |all|, k) <= |all|;
  }

  /** The instruction at a position is the one at its offset, with labels for targets. */
  lemma InstructionAt(g: Graph, p: Program, q: Pos)
    requires IsGraphOf(g, p) && q.block < |g| && q.index < |g[q.block]|
    ensures var pc := Start(Boundaries(p), q.block) + q.index;
            && pc < |p| && AllWellFormed(p) && WellFormed(p[pc])
            && (forall t :: t in Targets(p[pc]) ==> t in Labels(Boundaries(p)))
            && g[q.block][q.index] == Rewrite(p[pc], Labels(Boundaries(p))) && |g| == |Boundaries(p)| + 1
  {
  }

  lemma GraphIsWellFormed(g: Graph, p: Program)
    requires IsGraphOf(g, p)
    ensures GraphWellFormed(g)
  {
    forall k, j | 0 <= k < |g| && 0 <= j < |g[k]|
      ensures LabelsWellFormed(g[k][j])
    {
      InstructionAt(g, p, Pos(k, j));
    }
  }

  /** Falling through a block's end keeps the offset, up to the end of the program. */
  lemma {:induction false} SettleKeepsOffset(g: Graph, p: Program, q: Pos, pc: nat)
    requires Located(g, p, q, pc)
    ensures var r := Settle(g, q);
            if r.block < |g| then Located(g, p, r, pc) && pc < |p| else pc == |p|
    decreases |g| - q.block
  {
    SettleUnfolds(g, q);
    if q.index < |g[q.block]| {
      InsideBlock(g, p, q, pc);
    } else {
      FallThrough(g, p, q, pc);
      hide Settle, Located;
      if q.block + 1 < |g| {
        SettleKeepsOffset(g, p, Pos(q.block + 1, 0), pc);
      }
    }
    hide *;
  }

  lemma InsideBlock(g: Graph, p: Program, q: Pos, pc: nat)
    requires Located(g, p, q, pc) && q.index < |g[q.block]|
    ensures pc < |p|
  {
    BlockSize(g, p, q.block);
    hide IsGraphOf, Boundaries;
  }

  /** The end of a block is the beginning of the next one, or the end of the program. */
  lemma FallThrough(g: Graph, p: Program, q: Pos, pc: nat)
    requires Located(g, p, q, pc) && q.index >= |g[q.block]|
    ensures q.block + 1 < |g| ==> Located(g, p, Pos(q.block + 1, 0), pc)
    ensures q.block + 1 >= |g| ==> pc == |p|
  {
    BlockSize(g, p, q.block);
    hide IsGraphOf, Boundaries;
  }

  lemma SettleUnfolds(g: Graph, p: Pos)
    requires p.block < |g|
    ensures p.index < |g[p.block]| ==> Settle(g, p) == p
    ensures p.index >= |g[p.block]| ==> Settle(g, p) == Settle(g, Pos(p.block + 1, 0))
    ensures p.index >= |g[p.block]| && p.block + 1 >= |g| ==> Settle(g, p) == Pos(p.block + 1, 0)
  {
  }

  lemma TargetLocated(g: Graph, p: Program, t: nat)
    requires IsGraphOf(g, p) && LabelsNameTargets(p) && IsTarget(p, t)
    ensures Located(g, p, Pos(Labels(Boundaries(p))[t], 0), t)
  {
  }

  lemma StepSimulates<S>(m: Machine<S>, g: Graph, p: Program, f: Config<nat, S>, c: Config<Pos, S>)
    requires IsGraphOf(g, p) && LabelsNameTargets(p) && GraphWellFormed(g) && Corresponds(g, p, f, c)
    ensures Corresponds(g, p, FlatStep(m, p, f), GraphStep(m, g, c))
  {
    hide IsGraphOf, LabelsNameTargets, Boundaries, Labels, Settle, GraphWellFormed, Start;
    if c.At? {
      SettleKeepsOffset(g, p, c.p, f.p);
      var q := Settle(g, c.p);
      if q.block < |g| {
        InstructionAt(g, p, q);
        var ins := p[f.p];
        match ins.opcode {
          case JMP =>
            assert ins.operands[0].n in Targets(ins);
            TargetLocated(g, p, ins.operands[0].n);
          case BR =>
            assert ins.operands[1].n in Targets(ins) && ins.operands[2].n in Targets(ins);
            TargetLocated(g, p, ins.operands[1].n);
            TargetLocated(g, p, ins.operands[2].n);
          case _ =>
        }
      }
    }
  }

  /** The graph runs in lock-step with the program, from the first instruction of the first block:
      after every number of steps both are at the same instruction in the same state, or both have
      returned through the same instruction, or both have run off the end. */
  lemma {:induction false} GraphSimulates<S>(m: Machine<S>, g: Graph, p: Program, s: S, n: nat)
    requires IsGraphOf(g, p) && ZeroTargetFree(p)
    ensures GraphWellFormed(g)
    ensures Corresponds(g, p, FlatRun(m, p, At(0, s), n), GraphRun(m, g, At(Pos(0, 0), s), n))
  {
    StartsAlike(m, g, p, s);
    hide *;
    if n > 0 {
      GraphSimulates(m, g, p, s, n - 1);
      OneMoreStep(m, g, p, s, n);
      StepSimulates(m, g, p, FlatRun(m, p, At(0, s), n - 1), GraphRun(m, g, At(Pos(0, 0), s), n - 1));
    }
  }

  lemma StartsAlike<S>(m: Machine<S>, g: Graph, p: Program, s: S)
    requires IsGraphOf(g, p) && ZeroTargetFree(p)
    ensures GraphWellFormed(g) && AllWellFormed(p) && LabelsNameTargets(p)
    ensures Corresponds(g, p, FlatRun(m, p, At(0, s), 0), GraphRun(m, g, At(Pos(0, 0), s), 0))
  {
    GraphIsWellFormed(g, p);
    LabelsRightExactly(p);
    assert Located(g, p, Pos(0, 0), 0);
    hide GraphWellFormed, LabelsNameTargets, ZeroTargetFree, Located, AllWellFormed;
  }

  lemma OneMoreStep<S>(m: Machine<S>, g: Graph, p: Program, s: S, n: nat)
    requires n > 0 && AllWellFormed(p) && GraphWellFormed(g)
    ensures FlatRun(m, p, At(0, s), n) == FlatStep(m, p, FlatRun(m, p, At(0, s), n - 1))
    ensures GraphRun(m, g, At(Pos(0, 0), s), n) == GraphStep(m, g, GraphRun(m, g, At(Pos(0, 0), s), n - 1))
  {
    hide FlatStep, GraphStep, AllWellFormed, GraphWellFormed;
  }

  // ----- Terminated blocks

  datatype CheckResult = Accepted | MalformedCfg(block: nat, offset: nat) | EmptyBlock(block: nat)

  /** Every block ends in a terminator. An empty block has no last instruction to look at; a block that ends
      otherwise is reported with the offset of its last instruction. */
  method CheckTerminalInstructions(g: Graph) returns (r: CheckResult)
    ensures r == Accepted <==> forall k :: 0 <= k < |g| ==> Terminated(g[k])
    ensures r.EmptyBlock? ==> r.block < |g| && g[r.block] == [] && forall k :: 0 <= k < r.block ==> Terminated(g[k])
    ensures r.MalformedCfg? ==> r.block < |g| && r.offset + 1 == |g[r.block]| && !IsTerminator(g[r.block][r.offset])
                                && forall k :: 0 <= k < r.block ==> Terminated(g[k])
  {
    for i := 0 to |g|
      invariant forall k :: 0 <= k < i ==> Terminated(g[k])
    {
      if g[i] == [] {
        return EmptyBlock(i);
      }
      var ins := g[i][|g[i]| - 1];
      match ins.opcode {
        case JMP =>
        case BR =>
        case RET =>
        case Ordinary(_) =>
          return MalformedCfg(i, |g[i]| - 1);
      }
    }
    return Accepted;
  }

  ghost predicate Terminated(block: Program) {
    block != [] && IsTerminator(block[|block| - 1])
  }

  ghost predicate AllTerminated(g: Graph) {
    forall k :: 0 <= k < |g| ==> Terminated(g[k])
  }

  /** The labels of a graph's instruction name blocks of the graph. */
  lemma LabelsInRange(g: Graph, p: Program, q: Pos)
    requires IsGraphOf(g, p) && q.block < |g| && q.index < |g[q.block]|
    ensures LabelsWellFormed(g[q.block][q.index])
    ensures g[q.block][q.index].opcode == JMP ==> g[q.block][q.index].operands[0].id < |g|
    ensures g[q.block][q.index].opcode == BR ==>
              g[q.block][q.index].operands[1].id < |g| && g[q.block][q.index].operands[2].id < |g|
  {
    hide IsGraphOf, Boundaries, Labels;
    InstructionAt(g, p, q);
    LabelsAre(Boundaries(p));
    var ins := p[Start(Boundaries(p), q.block) + q.index];
    assert ins.opcode == JMP ==> ins.operands[0].n in Targets(ins);
    assert ins.opcode == BR ==> ins.operands[1].n in Targets(ins) && ins.operands[2].n in Targets(ins);
  }

  /** The execution is inside a block, or has returned. */
  ghost predicate Inside<S>(g: Graph, c: Config<Pos, S>) {
    !c.OffEnd? && (c.At? ==> c.p.block < |g| && c.p.index < |g[c.p.block]|)
  }

  lemma StepStaysInside<S>(m: Machine<S>, g: Graph, p: Program, c: Config<Pos, S>)
    requires IsGraphOf(g, p) && AllTerminated(g) && GraphWellFormed(g) && Inside(g, c)
    ensures Inside(g, GraphStep(m, g, c))
  {
    if c.At? {
      hide IsGraphOf;
      LabelsInRange(g, p, c.p);
      assert Terminated(g[c.p.block]) && Settle(g, c.p) == c.p;
      assert !IsTerminator(g[c.p.block][c.p.index]) ==> c.p.index < |g[c.p.block]| - 1;
      hide AllTerminated, GraphWellFormed, Settle, Terminated, LabelsWellFormed;
    }
  }

  /** With every block terminated, execution never reaches the end of a block. */
  lemma {:induction false} NeverFallsThrough<S>(m: Machine<S>, g: Graph, p: Program, s: S, n: nat)
    requires IsGraphOf(g, p) && AllTerminated(g) && GraphWellFormed(g)
    ensures Inside(g, GraphRun(m, g, At(Pos(0, 0), s), n))
  {
    if n > 0 {
      NeverFallsThrough(m, g, p, s, n - 1);
      StepStaysInside(m, g, p, GraphRun(m, g, At(Pos(0, 0), s), n - 1));
    } else {
      assert |g| > 0 && Terminated(g[0]) by { BlockSize(g, p, 0); }
    }
  }

  /** Which programs pass the check: non-empty ones that end in RET, whose first instruction is no
      target, and where every target follows a terminator. */
  ghost predicate Checkable(p: Program)
    requires AllWellFormed(p)
  {
    && p != [] && p[|p| - 1].opcode == RET && !IsTarget(p, 0) && !IsTarget(p, |p|)
    && forall t: nat :: IsTarget(p, t) && 0 < t < |p| ==> IsTerminator(p[t - 1])
  }

  /** A block is terminated when it is not empty and the program has a terminator where it ends. */
  lemma TerminatedWhere(g: Graph, p: Program, k: nat)
    requires IsGraphOf(g, p) && k < |g|
    ensures var b := Boundaries(p);
            && Start(b, k) <= End(b, |p|, k) <= |p|
            && (Terminated(g[k]) <==> Start(b, k) < End(b, |p|, k) && IsTerminator(p[End(b, |p|, k) - 1]))
  {
    BlockSize(g, p, k);
    if g[k] != [] {
      InstructionAt(g, p, Pos(k, |g[k]| - 1));
    }
    hide IsGraphOf, Boundaries, Labels;
  }

  lemma WellDivided(g: Graph, p: Program)
    requires IsGraphOf(g, p)
    ensures AllWellFormed(p) && InBounds(p) && |g| == |Boundaries(p)| + 1
    ensures forall k :: 0 <= k < |Boundaries(p)| ==> Boundaries(p)[k] <= |p|
  {
    LastBoundary(p, Boundaries(p));
    hide Boundaries, Labels, RewriteAll;
  }

  /** In a checkable program every boundary follows a terminator. */
  lemma BoundaryTerminated(p: Program, t: nat)
    requires AllWellFormed(p) && InBounds(p) && Checkable(p) && t in Boundaries(p)
    ensures 0 < t < |p| && IsTerminator(p[t - 1])
  {
    BoundariesAre(p, t);
    hide Boundaries, AllWellFormed;
  }

  lemma CheckableTerminated(g: Graph, p: Program, k: nat)
    requires IsGraphOf(g, p) && Checkable(p) && k < |g|
    ensures Terminated(g[k])
  {
    var b := Boundaries(p);
    WellDivided(g, p);
    TerminatedWhere(g, p, k);
    assert IsTerminator(p[|p| - 1]);
    if k < |b| {
      BoundaryTerminated(p, b[k]);
    }
    if k > 0 {
      BoundaryTerminated(p, b[k - 1]);
    }
    hide IsGraphOf, Boundaries, Terminated, AllWellFormed, InBounds, Checkable;
  }

  lemma GreatestLast(b: seq<nat>, x: nat)
    requires Increasing(b) && x in b && forall k :: 0 <= k < |b| ==> b[k] <= x
    ensures b != [] && b[|b| - 1] == x
  {
    assert forall k :: 0 <= k < |b| - 1 ==> b[k] < b[|b| - 1];
  }

  lemma LastBlockEmpty(g: Graph, p: Program)
    requires IsGraphOf(g, p)
    ensures |p| in Boundaries(p) ==> !Terminated(g[|g| - 1])
  {
    WellDivided(g, p);
    TerminatedWhere(g, p, |g| - 1);
    hide IsGraphOf, Terminated, AllWellFormed, InBounds;
    if |p| in Boundaries(p) {
      GreatestLast(Boundaries(p), |p|);
    }
    hide Boundaries;
  }

  /** The block that ends at a boundary. */
  lemma EndsBlock(p: Program, t: nat) returns (k: nat)
    requires AllWellFormed(p) && IsTarget(p, t)
    ensures k < |Boundaries(p)| && End(Boundaries(p), |p|, k) == t
  {
    BoundariesAre(p, t);
    hide Boundaries;
    k :| 0 <= k < |Boundaries(p)| && Boundaries(p)[k] == t;
  }

  lemma TargetsTerminated(g: Graph, p: Program)
    requires IsGraphOf(g, p) && AllTerminated(g)
    ensures AllWellFormed(p)
    ensures forall t: nat :: IsTarget(p, t) && 0 < t < |p| ==> IsTerminator(p[t - 1])
  {
    WellDivided(g, p);
    forall t: nat | IsTarget(p, t) && 0 < t < |p|
      ensures IsTerminator(p[t - 1])
    {
      var k := EndsBlock(p, t);
      TerminatedWhere(g, p, k);
      hide IsGraphOf, Terminated, AllWellFormed, IsTarget, Boundaries, InBounds;
    }
    hide *;
  }

  lemma EndIsBoundary(p: Program)
    requires AllWellFormed(p) && p != []
    ensures IsBoundary(p, |p|) <==> IsTarget(p, |p|) || p[|p| - 1].opcode == JMP || p[|p| - 1].opcode == BR
  {
  }

  lemma EndsInReturn(g: Graph, p: Program)
    requires IsGraphOf(g, p) && AllTerminated(g)
    ensures AllWellFormed(p) && p != [] && p[|p| - 1].opcode == RET && !IsTarget(p, |p|)
  {
    WellDivided(g, p);
    TerminatedWhere(g, p, |g| - 1);
    LastBlockEmpty(g, p);
    BoundariesAre(p, |p|);
    assert Terminated(g[|g| - 1]);
    hide AllWellFormed, InBounds, IsGraphOf, AllTerminated, Terminated, Boundaries, IsBoundary;
    EndIsBoundary(p);
    hide IsTarget;
  }

  lemma FirstNoTarget(g: Graph, p: Program)
    requires IsGraphOf(g, p) && AllTerminated(g)
    ensures AllWellFormed(p) && !IsTarget(p, 0)
  {
    WellDivided(g, p);
    TerminatedWhere(g, p, 0);
    FirstBoundary(p);
    assert Terminated(g[0]);
    hide IsGraphOf, AllTerminated, Terminated, Boundaries, AllWellFormed, IsTarget, InBounds;
  }

  lemma TerminatedCheckable(g: Graph, p: Program)
    requires IsGraphOf(g, p) && AllTerminated(g)
    ensures Checkable(p)
  {
    EndsInReturn(g, p);
    FirstNoTarget(g, p);
    TargetsTerminated(g, p);
    hide AllWellFormed, IsTarget, IsGraphOf, AllTerminated, IsTerminator;
  }

  /** The check accepts exactly the graphs of checkable programs. */
  lemma AcceptedExactly(g: Graph, p: Program)
    requires IsGraphOf(g, p)
    ensures AllTerminated(g) <==> Checkable(p)
  {
    if AllTerminated(g) {
      TerminatedCheckable(g, p);
    }
    if Checkable(p) {
      forall k | 0 <= k < |g|
        ensures Terminated(g[k])
      {
        CheckableTerminated(g, p, k);
      }
    }
  }

  /** Graphs that pass the check run like their programs, and never fall through. */
  lemma AcceptedRunsLikeProgram<S>(m: Machine<S>, g: Graph, p: Program, s: S, n: nat)
    requires IsGraphOf(g, p) && AllTerminated(g)
    ensures GraphWellFormed(g) && Inside(g, GraphRun(m, g, At(Pos(0, 0), s), n))
    ensures Corresponds(g, p, FlatRun(m, p, At(0, s), n), GraphRun(m, g, At(Pos(0, 0), s), n))
  {
    AcceptedExactly(g, p);
    GraphSimulates(m, g, p, s, n);
    NeverFallsThrough(m, g, p, s, n);
  }

  /** A program that is nothing but a jump to its own end. */
  function JumpToEnd(): Program {
    [Instruction(JMP, 0, 0, [U32(1)])]
  }

  lemma JumpToEndGraph(g: Graph)
    requires IsGraphOf(g, JumpToEnd())
    ensures |g| == 2 && Terminated(g[0]) && g[1] == []
  {
    var p := JumpToEnd();
    InsertTwo([], 1, 1);
    assert BoundariesUpTo(p, 0) == [] && Added(p[0], 0, 1) == [1, 1] && Insert([], 1) == [1] && Insert([1], 1) == [1];
    assert Boundaries(p) == [1];
    BlockSize(g, p, 0);
    BlockSize(g, p, 1);
    TerminatedWhere(g, p, 0);
  }

  /** It is divided, and then checking the graph looks at the last instruction of an empty block. */
  method ChecksEmptyBlock() returns (r: CheckResult)
    ensures r == EmptyBlock(1)
  {
    var p := JumpToEnd();
    assert InBounds(p);
    var d := Divide(p);
    JumpToEndGraph(d.graph);
    r := CheckTerminalInstructions(d.graph);
  }

  /** A branch to 0 and to 2: the second target's label names the block that begins at 1. */
  function Backward(condition: Value): Program {
    [Instruction(BR, 0, 0, [condition, U32(0), U32(2)]),
     Instruction(Ordinary(0), 0, 0, []),
     Instruction(RET, 0, 0, [])]
  }

  lemma BackwardBoundaries(condition: Value)
    ensures AllWellFormed(Backward(condition)) && Boundaries(Backward(condition)) == [0, 1, 2]
  {
    var p := Backward(condition);
    InsertThree([], 1, 0, 2);
    assert Insert([], 1) == [1] && Insert([1], 0) == [0, 1];
    assert [0, 1][1..] == [1] && [1][1..] == [];
    assert Insert([0, 1], 2) == [0, 1, 2];
    hide Insert;
    assert BoundariesUpTo(p, 0) == [] && Added(p[0], 0, 3) == [1, 0, 2];
    assert BoundariesUpTo(p, 1) == [0, 1, 2];
    assert BoundariesUpTo(p, 2) == [0, 1, 2];
  }

  lemma BackwardGraph(condition: Value, g: Graph)
    requires IsGraphOf(g, Backward(condition))
    ensures |g| == 4 && g[0] == [] && |g[1]| == 1 && |g[2]| == 1 && g[2][0] == Backward(condition)[1]
    ensures g[1][0] == Backward(condition)[0].(operands := [condition, Label(0), Label(2)])
  {
    var p := Backward(condition);
    var b := Boundaries(p);
    BackwardBoundaries(condition);
    BlockSize(g, p, 0);
    BlockSize(g, p, 1);
    BlockSize(g, p, 2);
    InstructionAt(g, p, Pos(1, 0));
    InstructionAt(g, p, Pos(2, 0));
    LabelsAre(b);
    hide IsGraphOf, Boundaries, Labels;
    assert b[2] == 2 && Labels(b)[b[2]] == 2;
  }

  /** The program returns in two steps; its graph has executed the instruction that the branch skips. */
  lemma BackwardDiverges<S>(m: Machine<S>, g: Graph, condition: Value, s: S)
    requires IsGraphOf(g, Backward(condition)) && GraphWellFormed(g) && !m.test(condition, s)
    ensures var p := Backward(condition);
            && FlatRun(m, p, At(0, s), 2) == Returned(p[2], s)
            && GraphRun(m, g, At(Pos(0, 0), s), 2) == At(Pos(2, 1), m.exec(p[1], s))
  {
    var p := Backward(condition);
    BackwardGraph(condition, g);
    assert FlatRun(m, p, At(0, s), 1) == At(2, s);
    assert Settle(g, Pos(0, 0)) == Pos(1, 0) && Settle(g, Pos(2, 0)) == Pos(2, 0);
    assert GraphRun(m, g, At(Pos(0, 0), s), 1) == At(Pos(2, 0), s);
  }
}
