/** Local variables over whole runs (STORE and LVALUE of slake/rt/exec.cc, write_var and read_var of
    slake/rt/var_access.cc): a map from the variables on the stack to what they hold, beside the frames. */
module FrameVariables {
  import opened Primitives
  import opened Wrappers
  import opened StackMemory
  import opened FrameSpec

  datatype Variable = Variable(varType: TypeId, value: Value)

  /** The variables on the stack, by what refers to them. */
  type Variables = map<nat, Variable>

  datatype VState = VState(frames: AState, vars: Variables)

  /** Plain: any other instruction. */
  datatype VInstruction = Plain(i: Instruction) | STORE(to: nat, from: nat) | LVALUE(out: nat, from: nat)

  /** The variables that are still on the stack when its top is there. */
  function Below(vars: Variables, top: nat): Variables {
    map off | off in vars && off <= top :: vars[off]
  }

  /** The variable that LVAR makes: it holds the default value of its type. */
  function Made(b: Buffer, s: AState, i: Instruction): Variables
    requires Wf(b, s) && Possible(s, OpOf(i))
  {
    if !i.LVAR? || Step(b, s, OpOf(i)).1 != Done then map[] else
      match LocalTops(b, s.top, SizeOf(i.t), SizeOf(i.t))
      case None => map[]
      case Some(p) => map[p.0 := Variable(i.t, Primitive(i.t, 0))]
  }

  /** What the register refers to. */
  function Target(s: AState, reg: nat): Option<nat>
    requires s.frames != []
  {
    var regs := Cur(s).data.regs;
    if reg < |regs| && regs[reg].LocalVarRef? then Some(regs[reg].off) else None
  }

  /** The register refers to no variable that has been given up. */
  predicate Refers(v: VState, reg: nat)
    requires v.frames.frames != []
  {
    var target := Target(v.frames, reg);
    target.Some? ==> target.value in v.vars
  }

  /** The instruction is one whose effect the source defines. */
  predicate Defined(v: VState, i: VInstruction)
    requires v.frames.frames != []
  {
    match i
    case Plain(p) => Possible(v.frames, OpOf(p))
    case STORE(to, _) => Refers(v, to)
    case LVALUE(_, from) => Refers(v, from)
  }

  function VStep(b: Buffer, v: VState, i: VInstruction): (VState, Outcome)
    requires Wf(b, v.frames) && Defined(v, i)
  {
    match i
    case Plain(p) =>
      var (s, o) := Step(b, v.frames, OpOf(p));
      (VState(s, Below(v.vars, s.top) + Made(b, v.frames, p)), o)
    case STORE(to, from) =>
      var (regs, target) := (Cur(v.frames).data.regs, Target(v.frames, to));
      if from >= |regs| || target.None? then (v, InvalidOperands) else
        var t := v.vars[target.value].varType;
        if !regs[from].Primitive? || regs[from].valueType != t then (v, InvalidOperands)
        else (v.(vars := v.vars[target.value := Variable(t, regs[from])]), Done)
    case LVALUE(out, from) =>
      var (regs, target) := (Cur(v.frames).data.regs, Target(v.frames, from));
      if out >= |regs| || target.None? then (v, InvalidOperands)
      else (v.(frames := WithReg(v.frames, out, v.vars[target.value].value)), Done)
  }

  lemma VStepKeepsWf(b: Buffer, v: VState, i: VInstruction)
    requires Wf(b, v.frames) && Defined(v, i)
    ensures Wf(b, VStep(b, v, i).0.frames)
  {
    CurrentFacts(b, v.frames);
    hide Wf, Step;
    match i {
      case Plain(p) => StepKeepsWf(b, v.frames, OpOf(p));
      case STORE(_, _) =>
      case LVALUE(out, from) =>
        var target := Target(v.frames, from);
        if out < |Cur(v.frames).data.regs| && target.Some? {
          WriteKeepsWf(b, v.frames, out, v.vars[target.value].value);
        }
    }
  }

  /** Executing code from v ends in w; every instruction but the last succeeds, and o says how the last one
      does. */
  ghost predicate VExecutes(b: Buffer, v: VState, code: seq<VInstruction>, w: VState, o: Outcome)
    requires Wf(b, v.frames)
    decreases |code|
  {
    if code == [] then w == v && o == Done else
      && Defined(v, code[0])
      && var (u, q) := VStep(b, v, code[0]);
      if q != Done then |code| == 1 && w == u && o == q
      else VStepKeepsWf(b, v, code[0]); VExecutes(b, u, code[1..], w, o)
  }

  // ----- A variable reads as it was written last

  /** The instruction writes the variable. */
  predicate Writes(v: VState, i: VInstruction, off: nat)
    requires v.frames.frames != []
  {
    i.STORE? && Target(v.frames, i.to) == Some(off)
  }

  /** The variable stays on the stack all the while, and nothing writes it. */
  ghost predicate LeftAlone(b: Buffer, v: VState, code: seq<VInstruction>, off: nat)
    requires Wf(b, v.frames)
    decreases |code|
  {
    && off <= v.frames.top
    && (code != [] && Defined(v, code[0]) ==>
          && !Writes(v, code[0], off)
          && (VStepKeepsWf(b, v, code[0]); LeftAlone(b, VStep(b, v, code[0]).0, code[1..], off)))
  }

  /** A new variable is above everything that there was. */
  lemma MadeAbove(b: Buffer, s: AState, i: Instruction)
    requires Wf(b, s) && Possible(s, OpOf(i))
    ensures forall off :: off in Made(b, s, i) ==>
              && s.top < off <= Step(b, s, OpOf(i)).0.top && i.LVAR? && i.reg < |Cur(s).data.regs|
              && Made(b, s, i)[off] == Variable(i.t, Primitive(i.t, 0))
  {
    CurrentFacts(b, s);
    hide Wf, Leave, Call, WfFrame;
  }

  lemma StepLeavesAlone(b: Buffer, v: VState, i: VInstruction, off: nat)
    requires Wf(b, v.frames) && Defined(v, i) && off in v.vars && off <= v.frames.top && !Writes(v, i, off)
    requires off <= VStep(b, v, i).0.frames.top
    ensures var w := VStep(b, v, i).0; off in w.vars && w.vars[off] == v.vars[off]
  {
    hide Wf, Step, Made;
    if i.Plain? {
      MadeAbove(b, v.frames, i.i);
    }
  }

  lemma {:induction false} StaysWhileAlone(b: Buffer, v: VState, code: seq<VInstruction>, w: VState, o: Outcome,
                                          off: nat)
    requires Wf(b, v.frames) && VExecutes(b, v, code, w, o) && LeftAlone(b, v, code, off) && off in v.vars
    ensures off in w.vars && w.vars[off] == v.vars[off]
    decreases |code|
  {
    if code != [] {
      hide Wf, VStep;
      VStepKeepsWf(b, v, code[0]);
      var (u, q) := VStep(b, v, code[0]);
      assert off <= u.frames.top;
      StepLeavesAlone(b, v, code[0], off);
      if q == Done {
        StaysWhileAlone(b, u, code[1..], w, o, off);
      }
    }
  }

  /** STORE, and then any run that leaves the variable alone: whichever register refers to it in the end, LVALUE
      reads from it what the STORE has written. */
  lemma ReadsAsLastWritten(b: Buffer, v: VState, to: nat, from: nat, code: seq<VInstruction>, w: VState,
                           out: nat, other: nat)
    requires Wf(b, v.frames) && Defined(v, STORE(to, from)) && VStep(b, v, STORE(to, from)).1 == Done
    requires var u := VStep(b, v, STORE(to, from)).0;
             && Wf(b, u.frames) && VExecutes(b, u, code, w, Done)
             && LeftAlone(b, u, code, Target(v.frames, to).value)
    requires Wf(b, w.frames) && Target(w.frames, other) == Target(v.frames, to) && out < |Cur(w.frames).data.regs|
    ensures Defined(w, LVALUE(out, other)) && VStep(b, w, LVALUE(out, other)).1 == Done
    ensures var x := VStep(b, w, LVALUE(out, other)).0;
            Cur(x.frames).data.regs[out] == Cur(v.frames).data.regs[from]
  {
    var u := VStep(b, v, STORE(to, from)).0;
    StaysWhileAlone(b, u, code, w, Done, Target(v.frames, to).value);
    hide Wf, VExecutes, LeftAlone;
  }

  // ----- References that are not copied never dangle

  /** The reference is in the register that a local variable of minor frame j defines, and the variable was
      made before any minor frame inside of that one was entered. */
  ghost predicate DefinedAt(f: AFrame, j: nat, r: nat, off: nat) {
    && j < |f.minors| && r in f.minors[j].locals
    && forall k :: j < k < |f.minors| ==> off <= f.minors[k].base
  }

  /** Every reference in a register of f is to a variable below the top, and f's register defines it. */
  ghost predicate FrameAnchored(f: AFrame, vars: Variables, top: nat) {
    forall r :: 0 <= r < |f.data.regs| && f.data.regs[r].LocalVarRef? ==>
      var off := f.data.regs[r].off;
      off in vars && off <= top && exists j :: DefinedAt(f, j, r, off)
  }

  /** Where the stack was when the frame after the i-th was made, or is now. */
  function Ceiling(s: AState, i: nat): nat
    requires i < |s.frames|
  {
    if i + 1 < |s.frames| then s.frames[i + 1].prevTop else s.top
  }

  /** Variables hold values of their types, and references are where they were made. */
  ghost predicate Anchored(v: VState) {
    && (forall off :: off in v.vars ==>
          off <= v.frames.top && v.vars[off].value.Primitive? && v.vars[off].value.valueType == v.vars[off].varType)
    && (forall i :: 0 <= i < |v.frames.frames| ==> FrameAnchored(v.frames.frames[i], v.vars, Ceiling(v.frames, i)))
  }

  /** The instruction puts a reference where no LVAR has: it writes one to a register, returns one, or calls a
      function whose registers start with one. */
  predicate Copies(v: VState, i: VInstruction)
    requires v.frames.frames != []
  {
    match i
    case Plain(WRITE(_, value)) => value.LocalVarRef?
    case Plain(RET(reg)) => Target(v.frames, reg).Some?
    case Plain(CALL(fn, _)) => fn.initial.LocalVarRef?
    case _ => false
  }

  /** No instruction of the run copies a reference. */
  ghost predicate NoneCopies(b: Buffer, v: VState, code: seq<VInstruction>)
    requires Wf(b, v.frames)
    decreases |code|
  {
    code != [] && Defined(v, code[0]) ==>
      && !Copies(v, code[0])
      && (VStepKeepsWf(b, v, code[0]); NoneCopies(b, VStep(b, v, code[0]).0, code[1..]))
  }

  /** What refers into the stack below top is still there. */
  ghost predicate KeptBelow(a: Variables, b: Variables, top: nat) {
    forall off :: off in a && off <= top ==> off in b
  }

  lemma CeilingBelow(b: Buffer, s: AState, i: nat)
    requires Wf(b, s) && i < |s.frames|
    ensures Ceiling(s, i) <= s.top
  {
    if i + 1 < |s.frames| {
      assert WfFrame(s.frames[i + 1]);
      AboveFloor(b, s, i + 2, 0);
    }
  }

  /** A frame that has kept its minor frames, and got no reference into another register. */
  lemma FrameStays(f: AFrame, g: AFrame, vars: Variables, kept: Variables, top: nat, newTop: nat)
    requires FrameAnchored(f, vars, top) && KeptBelow(vars, kept, top) && top <= newTop
    requires f.minors == g.minors && |f.data.regs| == |g.data.regs|
    requires forall r :: 0 <= r < |g.data.regs| && g.data.regs[r].LocalVarRef? ==> g.data.regs[r] == f.data.regs[r]
    ensures FrameAnchored(g, kept, newTop)
  {
    hide DefinedAt;
    forall r | 0 <= r < |g.data.regs| && g.data.regs[r].LocalVarRef?
      ensures exists j :: DefinedAt(g, j, r, g.data.regs[r].off)
    {
      var j :| DefinedAt(f, j, r, f.data.regs[r].off);
      DefinedLike(f, g, j, r, f.data.regs[r].off);
    }
  }

  lemma DefinedLike(f: AFrame, g: AFrame, j: nat, r: nat, off: nat)
    requires DefinedAt(f, j, r, off) && f.minors == g.minors
    ensures DefinedAt(g, j, r, off)
  {
  }

  /** The frames below the n-th have not changed. */
  lemma OthersStay(b: Buffer, v: VState, w: VState, n: nat)
    requires Anchored(v) && Wf(b, w.frames) && n < |v.frames.frames| && n < |w.frames.frames|
    requires v.frames.frames[..n] == w.frames.frames[..n]
    requires v.frames.frames[n].prevTop == w.frames.frames[n].prevTop && KeptBelow(v.vars, w.vars, w.frames.top)
    ensures forall i :: 0 <= i < n ==> FrameAnchored(w.frames.frames[i], w.vars, Ceiling(w.frames, i))
  {
    forall i | 0 <= i < n
      ensures FrameAnchored(w.frames.frames[i], w.vars, Ceiling(w.frames, i))
    {
      CeilingBelow(b, w.frames, i);
      hide Wf, FrameAnchored;
      assert v.frames.frames[i] == v.frames.frames[..n][i] == w.frames.frames[i];
      assert i + 1 < n ==> v.frames.frames[i + 1] == v.frames.frames[..n][i + 1] == w.frames.frames[i + 1];
      var f := v.frames.frames[i];
      FrameStays(f, f, v.vars, w.vars, Ceiling(v.frames, i), Ceiling(w.frames, i));
    }
  }

  lemma EnterStays(f: AFrame, g: AFrame, vars: Variables, kept: Variables, top: nat, newTop: nat)
    requires FrameAnchored(f, vars, top) && KeptBelow(vars, kept, top) && top <= newTop
    requires g == f.(minors := f.minors + [AMinor(top, [])])
    ensures FrameAnchored(g, kept, newTop)
  {
    hide DefinedAt;
    forall r | 0 <= r < |g.data.regs| && g.data.regs[r].LocalVarRef?
      ensures exists j :: DefinedAt(g, j, r, g.data.regs[r].off)
    {
      var j :| DefinedAt(f, j, r, f.data.regs[r].off);
      DefinedInside(f, g, j, r, f.data.regs[r].off, top);
    }
  }

  lemma DefinedInside(f: AFrame, g: AFrame, j: nat, r: nat, off: nat, top: nat)
    requires DefinedAt(f, j, r, off) && off <= top && g == f.(minors := f.minors + [AMinor(top, [])])
    ensures DefinedAt(g, j, r, off)
  {
  }

  lemma LocalStays(f: AFrame, g: AFrame, vars: Variables, kept: Variables, top: nat, newTop: nat, reg: nat, off: nat)
    requires FrameAnchored(f, vars, top) && KeptBelow(vars, kept, top) && top <= newTop
    requires off in kept && off <= newTop && f.minors != [] && reg < |f.data.regs|
    requires var m := f.minors[|f.minors| - 1]; g.minors == f.minors[|f.minors| - 1 := m.(locals := [reg] + m.locals)]
    requires g.data.regs == f.data.regs[reg := LocalVarRef(off)]
    ensures FrameAnchored(g, kept, newTop)
  {
    hide DefinedAt;
    forall r | 0 <= r < |g.data.regs| && g.data.regs[r].LocalVarRef?
      ensures exists j :: DefinedAt(g, j, r, g.data.regs[r].off)
    {
      if r == reg {
        DefinedLast(g, reg, off);
      } else {
        var j :| DefinedAt(f, j, r, f.data.regs[r].off);
        DefinedBeside(f, g, j, r, f.data.regs[r].off, reg);
      }
    }
  }

  lemma DefinedLast(g: AFrame, reg: nat, off: nat)
    requires g.minors != [] && reg in g.minors[|g.minors| - 1].locals
    ensures DefinedAt(g, |g.minors| - 1, reg, off)
  {
  }

  lemma DefinedBeside(f: AFrame, g: AFrame, j: nat, r: nat, off: nat, reg: nat)
    requires DefinedAt(f, j, r, off) && f.minors != []
    requires var m := f.minors[|f.minors| - 1]; g.minors == f.minors[|f.minors| - 1 := m.(locals := [reg] + m.locals)]
    ensures DefinedAt(g, j, r, off)
  {
  }

  /** Without the minor frames from k on: the registers that they define are invalid, and what the others
      refer to was there before. */
  lemma LeaveStays(f: AFrame, g: AFrame, k: nat, vars: Variables, kept: Variables, top: nat, newTop: nat)
    requires FrameAnchored(f, vars, top) && 0 < k <= |f.minors| && KeptBelow(vars, kept, newTop)
    requires newTop == if k == |f.minors| then top else f.minors[k].base
    requires g.minors == f.minors[..k] && RegistersLeft(f, k, g.data.regs)
    ensures FrameAnchored(g, kept, newTop)
  {
    forall r | 0 <= r < |g.data.regs| && g.data.regs[r].LocalVarRef?
      ensures var off := g.data.regs[r].off; off in kept && off <= newTop && exists j :: DefinedAt(g, j, r, off)
    {
      var off := f.data.regs[r].off;
      var j: nat :| DefinedAt(f, j, r, off);
      assert j < k;
      assert DefinedAt(g, j, r, off);
    }
  }

  /** What follows the frames of FrameSpec in a plain instruction. */
  lemma VarsFollow(b: Buffer, v: VState, i: Instruction)
    requires Wf(b, v.frames) && Possible(v.frames, OpOf(i)) && Anchored(v)
    ensures var w := VStep(b, v, Plain(i)).0;
            && KeptBelow(v.vars, w.vars, w.frames.top) && w.frames == Step(b, v.frames, OpOf(i)).0
            && forall off :: off in w.vars ==>
                 && off <= w.frames.top && w.vars[off].value.Primitive?
                 && w.vars[off].value.valueType == w.vars[off].varType
  {
    MadeAbove(b, v.frames, i);
    hide Wf, Step, Made, FrameAnchored;
  }

  lemma EnterAnchored(b: Buffer, v: VState, w: VState)
    requires Wf(b, v.frames) && Anchored(v) && w.frames == Enter(b, v.frames).0
    requires KeptBelow(v.vars, w.vars, w.frames.top)
    ensures var n := |v.frames.frames| - 1;
            |w.frames.frames| == n + 1 && FrameAnchored(w.frames.frames[n], w.vars, Ceiling(w.frames, n))
    ensures SameBelow(v.frames, w.frames)
  {
    CurrentFacts(b, v.frames);
    var (f, g) := (Cur(v.frames), Cur(w.frames));
    hide Wf, FrameAnchored;
    if w.frames == v.frames {
      FrameStays(f, g, v.vars, w.vars, v.frames.top, w.frames.top);
    } else {
      EnterStays(f, g, v.vars, w.vars, v.frames.top, w.frames.top);
    }
  }

  /** Only the current frame has changed, and that was made where it was. */
  ghost predicate SameBelow(s: AState, t: AState) {
    && |s.frames| == |t.frames| > 0 && s.frames[..|s.frames| - 1] == t.frames[..|s.frames| - 1]
    && s.frames[|s.frames| - 1].prevTop == t.frames[|s.frames| - 1].prevTop
  }

  lemma LeaveAnchored(b: Buffer, v: VState, w: VState, level: nat)
    requires Wf(b, v.frames) && Anchored(v) && w.frames == Leave(v.frames, level).0
    requires KeptBelow(v.vars, w.vars, w.frames.top)
    ensures var n := |v.frames.frames| - 1;
            |w.frames.frames| == n + 1 && FrameAnchored(w.frames.frames[n], w.vars, Ceiling(w.frames, n))
    ensures SameBelow(v.frames, w.frames)
  {
    CurrentFacts(b, v.frames);
    LeaveMeaning(v.frames, level);
    var f := Cur(v.frames);
    var k := LeftOver(f, level);
    hide Wf, FrameAnchored, RegistersLeft, Leave;
    if k == |f.minors| {
      assert f.minors[..k] == f.minors;
    }
    LeaveStays(f, Cur(w.frames), k, v.vars, w.vars, v.frames.top, w.frames.top);
  }

  lemma LocalAnchored(b: Buffer, v: VState, w: VState, t: TypeId, reg: nat)
    requires Wf(b, v.frames) && Anchored(v) && w == VStep(b, v, Plain(LVAR(t, reg))).0
    requires KeptBelow(v.vars, w.vars, w.frames.top)
    ensures var n := |v.frames.frames| - 1;
            |w.frames.frames| == n + 1 && FrameAnchored(w.frames.frames[n], w.vars, Ceiling(w.frames, n))
    ensures SameBelow(v.frames, w.frames)
  {
    CurrentFacts(b, v.frames);
    var (f, g) := (Cur(v.frames), Cur(w.frames));
    hide Wf, FrameAnchored, AlignedBump, WfFrame;
    if w.frames == v.frames {
      FrameStays(f, g, v.vars, w.vars, v.frames.top, w.frames.top);
    } else {
      LocalStays(f, g, v.vars, w.vars, v.frames.top, w.frames.top, reg, g.data.regs[reg].off);
    }
  }

  /** PUSHARG, and the write of a register with no reference: no other register has changed. */
  lemma OtherAnchored(b: Buffer, v: VState, w: VState, op: Op)
    requires Wf(b, v.frames) && Possible(v.frames, op) && Anchored(v) && w.frames == Step(b, v.frames, op).0
    requires op.PushOp? || (op.WriteOp? && !op.value.LocalVarRef?)
    requires KeptBelow(v.vars, w.vars, w.frames.top)
    ensures var n := |v.frames.frames| - 1;
            |w.frames.frames| == n + 1 && FrameAnchored(w.frames.frames[n], w.vars, Ceiling(w.frames, n))
    ensures SameBelow(v.frames, w.frames)
  {
    CurrentFacts(b, v.frames);
    hide Wf, FrameAnchored, WfFrame;
    FrameStays(Cur(v.frames), Cur(w.frames), v.vars, w.vars, v.frames.top, w.frames.top);
  }

  lemma CallAnchored(b: Buffer, v: VState, w: VState, fn: FnInfo, out: nat)
    requires Wf(b, v.frames) && Wf(b, w.frames) && GoodFn(fn) && Anchored(v) && !fn.initial.LocalVarRef?
    requires w.frames == Call(b, v.frames, fn, out).0 && KeptBelow(v.vars, w.vars, w.frames.top)
    ensures forall i :: 0 <= i < |w.frames.frames| ==> FrameAnchored(w.frames.frames[i], w.vars, Ceiling(w.frames, i))
  {
    CallEffect(b, v.frames, fn, out);
    CurrentFacts(b, v.frames);
    var (n, f) := (|v.frames.frames| - 1, Cur(v.frames));
    OthersStay(b, v, w, n);
    hide Wf, Call, WfFrame;
    if w.frames == v.frames {
      FrameStays(f, f, v.vars, w.vars, v.frames.top, w.frames.top);
    } else {
      FrameStays(f, Caller(f), v.vars, w.vars, v.frames.top, v.frames.top);
    }
  }

  lemma RetAnchored(b: Buffer, v: VState, w: VState, reg: Option<nat>)
    requires Wf(b, v.frames) && Wf(b, w.frames) && Possible(v.frames, RetOp(reg)) && Anchored(v)
    requires reg.Some? ==> Target(v.frames, reg.value).None?
    requires w.frames == Step(b, v.frames, RetOp(reg)).0 && KeptBelow(v.vars, w.vars, w.frames.top)
    ensures forall i :: 0 <= i < |w.frames.frames| ==> FrameAnchored(w.frames.frames[i], w.vars, Ceiling(w.frames, i))
  {
    CurrentFacts(b, v.frames);
    var (n, f) := (|v.frames.frames| - 2, Cur(v.frames));
    RetEffect(b, v.frames, reg);
    if w.frames == v.frames {
      OthersStay(b, v, w, n + 1);
      hide *;
      FrameStays(f, f, v.vars, w.vars, v.frames.top, w.frames.top);
    } else {
      OthersStay(b, v, w, n);
      var (caller, g) := (v.frames.frames[n], w.frames.frames[n]);
      assert FrameAnchored(caller, v.vars, f.prevTop);
      hide Wf, FrameAnchored, Step;
      FrameStays(caller, g, v.vars, w.vars, f.prevTop, w.frames.top);
    }
  }

  /** A return fails and changes nothing, or takes the frame away, and changes at most one register of the
      caller, to what the register returned holds. */
  lemma RetEffect(b: Buffer, s: AState, reg: Option<nat>)
    requires Wf(b, s) && |s.frames| > 1
    ensures var (t, n, f) := (Step(b, s, RetOp(reg)).0, |s.frames| - 2, Cur(s));
            (Step(b, s, RetOp(reg)).1 != Done && t == s)
            || (&& Step(b, s, RetOp(reg)).1 == Done
                && t.top == f.prevTop && |t.frames| == n + 1 && t.frames[..n] == s.frames[..n]
                && t.frames[n] == s.frames[n].(data := t.frames[n].data)
                && |t.frames[n].data.regs| == |s.frames[n].data.regs|
                && (f.data.returnReg != INVALID_REG ==>
                      && f.data.returnReg < |t.frames[n].data.regs| && reg.Some? && reg.value < |f.data.regs|
                      && t.frames[n].data.regs[f.data.returnReg] == f.data.regs[reg.value])
                && forall r :: 0 <= r < |t.frames[n].data.regs| ==>
                     || t.frames[n].data.regs[r] == s.frames[n].data.regs[r]
                     || (r == f.data.returnReg != INVALID_REG))
  {
    assert Returnable(s.frames[|s.frames| - 2], Cur(s));
    hide Wf;
  }

  /** An instruction that copies no reference leaves every reference where it was made. */
  lemma StepAnchored(b: Buffer, v: VState, i: VInstruction)
    requires Wf(b, v.frames) && Defined(v, i) && Anchored(v) && !Copies(v, i)
    ensures Anchored(VStep(b, v, i).0)
  {
    var w := VStep(b, v, i).0;
    VStepKeepsWf(b, v, i);
    CurrentFacts(b, v.frames);
    match i {
      case STORE(to, from) => StoreAnchored(b, v, to, from);
      case LVALUE(out, from) => LoadAnchored(b, v, out, from);
      case Plain(p) =>
        VarsFollow(b, v, p);
        PlainAnchored(b, v, p);
    }
    hide *;
    AllAnchored(w);
  }

  lemma AllAnchored(w: VState)
    requires forall off :: off in w.vars ==>
               && off <= w.frames.top && w.vars[off].value.Primitive?
               && w.vars[off].value.valueType == w.vars[off].varType
    requires forall i :: 0 <= i < |w.frames.frames| ==>
               FrameAnchored(w.frames.frames[i], w.vars, Ceiling(w.frames, i))
    ensures Anchored(w)
  {
  }

  lemma StoreAnchored(b: Buffer, v: VState, to: nat, from: nat)
    requires Wf(b, v.frames) && Defined(v, STORE(to, from)) && Anchored(v)
    ensures Anchored(VStep(b, v, STORE(to, from)).0)
  {
    hide Wf, FrameAnchored;
    var w := VStep(b, v, STORE(to, from)).0;
    forall i | 0 <= i < |w.frames.frames|
      ensures FrameAnchored(w.frames.frames[i], w.vars, Ceiling(w.frames, i))
    {
      var f := v.frames.frames[i];
      FrameStays(f, f, v.vars, w.vars, Ceiling(v.frames, i), Ceiling(w.frames, i));
    }
  }

  lemma LoadAnchored(b: Buffer, v: VState, out: nat, from: nat)
    requires Wf(b, v.frames) && Defined(v, LVALUE(out, from)) && Anchored(v)
    ensures Anchored(VStep(b, v, LVALUE(out, from)).0)
  {
    var w := VStep(b, v, LVALUE(out, from)).0;
    VStepKeepsWf(b, v, LVALUE(out, from));
    CurrentFacts(b, v.frames);
    hide Wf, FrameAnchored, WfFrame, HighBase;
    if w != v {
      var value := v.vars[Target(v.frames, from).value].value;
      OtherAnchored(b, v, w, WriteOp(out, value));
      OthersStay(b, v, w, |v.frames.frames| - 1);
    }
  }

  lemma PlainAnchored(b: Buffer, v: VState, p: Instruction)
    requires Wf(b, v.frames) && Possible(v.frames, OpOf(p)) && Anchored(v) && !Copies(v, Plain(p))
    ensures var w := VStep(b, v, Plain(p)).0;
            forall i :: 0 <= i < |w.frames.frames| ==> FrameAnchored(w.frames.frames[i], w.vars, Ceiling(w.frames, i))
  {
    var w := VStep(b, v, Plain(p)).0;
    VStepKeepsWf(b, v, Plain(p));
    VarsFollow(b, v, p);
    CurrentFacts(b, v.frames);
    hide Wf, Anchored, Enter, Leave, Call, Ret, AddLocal, PushArg, WithReg, FrameAnchored, Made, Below;
    match p {
      case ENTER => EnterAnchored(b, v, w);
      case LEAVE(level) => LeaveAnchored(b, v, w, level);
      case LVAR(t, reg) => LocalAnchored(b, v, w, t, reg);
      case PUSHARG(reg) => OtherAnchored(b, v, w, PushOp(reg));
      case CALL(fn, out) => CallAnchored(b, v, w, fn, out);
      case RET(reg) => RetAnchored(b, v, w, Some(reg));
      case RETVOID => RetAnchored(b, v, w, None);
      case WRITE(reg, value) => OtherAnchored(b, v, w, WriteOp(reg, value));
    }
    if !p.CALL? && !p.RET? && !p.RETVOID? {
      OthersStay(b, v, w, |v.frames.frames| - 1);
    }
  }

  /** As long as no instruction copies a reference, whatever a register refers to is a variable that is still
      there, and holds a value of its type. */
  lemma {:induction false} NeverDangles(b: Buffer, v: VState, code: seq<VInstruction>, w: VState, o: Outcome)
    requires Wf(b, v.frames) && Anchored(v) && VExecutes(b, v, code, w, o) && NoneCopies(b, v, code)
    ensures Wf(b, w.frames) && Anchored(w) && forall reg: nat :: Refers(w, reg)
    decreases |code|
  {
    if code == [] {
      AnchoredRefers(b, w);
    } else {
      hide Wf, VStep, Anchored;
      StepAnchored(b, v, code[0]);
      VStepKeepsWf(b, v, code[0]);
      var (u, q) := VStep(b, v, code[0]);
      if q == Done {
        NeverDangles(b, u, code[1..], w, o);
      } else {
        AnchoredRefers(b, w);
      }
    }
  }

  lemma AnchoredRefers(b: Buffer, w: VState)
    requires Wf(b, w.frames) && Anchored(w)
    ensures w.frames.frames != [] && forall reg: nat :: Refers(w, reg)
  {
    CurrentFacts(b, w.frames);
    hide Wf;
    var n := |w.frames.frames| - 1;
    assert FrameAnchored(w.frames.frames[n], w.vars, Ceiling(w.frames, n));
  }

  // ----- When exactly a reference comes to dangle

  /** What the registers of f refer to is there, and was made below top. */
  ghost predicate FrameSound(f: AFrame, vars: Variables, top: nat) {
    forall r :: 0 <= r < |f.data.regs| && f.data.regs[r].LocalVarRef? ==>
      f.data.regs[r].off in vars && f.data.regs[r].off <= top
  }

  /** All references are to variables that are there, and were made by the function that has them or one that
      called it. */
  ghost predicate Sound(v: VState) {
    && (forall off :: off in v.vars ==> off <= v.frames.top && v.vars[off].value.Primitive?)
    && (forall i :: 0 <= i < |v.frames.frames| ==> FrameSound(v.frames.frames[i], v.vars, Ceiling(v.frames, i)))
  }

  /** What any register refers to is there. */
  ghost predicate NoneDangling(v: VState) {
    forall i, r :: 0 <= i < |v.frames.frames| && 0 <= r < |v.frames.frames[i].data.regs|
                   && v.frames.frames[i].data.regs[r].LocalVarRef? ==>
      v.frames.frames[i].data.regs[r].off in v.vars
  }

  /** How many minor frames LEAVE leaves. */
  function LeftOver(f: AFrame, level: nat): nat {
    if level < |f.minors| then |f.minors| - level else 1
  }

  /** LEAVE gives up a variable that a register refers to which none of the variables given up was made in; RET
      returns a reference to a variable of the function that returns; WRITE or CALL bring in a reference to none. */
  ghost predicate Strands(b: Buffer, v: VState, i: VInstruction)
    requires Wf(b, v.frames) && Defined(v, i)
  {
    var f := Cur(v.frames);
    match i
    case Plain(LEAVE(level)) =>
      var k := LeftOver(f, level);
      k < |f.minors| && exists r ::
        0 <= r < |f.data.regs| && f.data.regs[r].LocalVarRef? && !DefinedFrom(f.minors, k, r)
        && f.data.regs[r].off > f.minors[k].base
    case Plain(RET(reg)) =>
      && f.data.returnReg != INVALID_REG && Ret(v.frames, Some(reg)).1 == Done
      && f.data.regs[reg].LocalVarRef? && f.data.regs[reg].off > f.prevTop
    case Plain(WRITE(reg, value)) => reg < |f.data.regs| && value.LocalVarRef? && value.off !in v.vars
    case Plain(CALL(fn, out)) =>
      && fn.initial.LocalVarRef? && fn.initial.off !in v.vars && fn.numAnyRegs > 0
      && Call(b, v.frames, fn, out).1 == Done
    case _ => false
  }

  /** What is there, and below the new top, stays there. */
  lemma ThereExactly(b: Buffer, v: VState, p: Instruction, off: nat)
    requires Wf(b, v.frames) && Possible(v.frames, OpOf(p)) && off in v.vars && off <= v.frames.top
    ensures var w := VStep(b, v, Plain(p)).0; off in w.vars <==> off <= w.frames.top
  {
    MadeAbove(b, v.frames, p);
    hide Wf, Step, Made;
  }

  /** Every reference of g is one of f, or to what is there. */
  lemma SoundLike(f: AFrame, g: AFrame, vars: Variables, kept: Variables, top: nat, newTop: nat)
    requires FrameSound(f, vars, top) && KeptBelow(vars, kept, top) && top <= newTop
    requires |g.data.regs| == |f.data.regs|
    requires forall r :: 0 <= r < |g.data.regs| && g.data.regs[r].LocalVarRef? ==>
               || g.data.regs[r] == f.data.regs[r]
               || (g.data.regs[r].off in kept && g.data.regs[r].off <= newTop)
    ensures FrameSound(g, kept, newTop)
  {
  }

  lemma OthersSound(b: Buffer, v: VState, w: VState, n: nat)
    requires Sound(v) && Wf(b, w.frames) && n < |v.frames.frames| && n < |w.frames.frames|
    requires v.frames.frames[..n] == w.frames.frames[..n]
    requires v.frames.frames[n].prevTop == w.frames.frames[n].prevTop && KeptBelow(v.vars, w.vars, w.frames.top)
    ensures forall i :: 0 <= i < n ==> FrameSound(w.frames.frames[i], w.vars, Ceiling(w.frames, i))
  {
    forall i | 0 <= i < n
      ensures FrameSound(w.frames.frames[i], w.vars, Ceiling(w.frames, i))
    {
      CeilingBelow(b, w.frames, i);
      hide Wf, FrameSound;
      assert v.frames.frames[i] == v.frames.frames[..n][i] == w.frames.frames[i];
      assert i + 1 < n ==> v.frames.frames[i + 1] == v.frames.frames[..n][i + 1] == w.frames.frames[i + 1];
      var f := v.frames.frames[i];
      SoundLike(f, f, v.vars, w.vars, Ceiling(v.frames, i), Ceiling(w.frames, i));
    }
  }

  /** What follows the frames of FrameSpec in a plain instruction. */
  lemma SoundFollow(b: Buffer, v: VState, p: Instruction)
    requires Wf(b, v.frames) && Possible(v.frames, OpOf(p)) && Sound(v)
    ensures var w := VStep(b, v, Plain(p)).0;
            && KeptBelow(v.vars, w.vars, w.frames.top) && w.frames == Step(b, v.frames, OpOf(p)).0
            && forall off :: off in w.vars ==> off <= w.frames.top && w.vars[off].value.Primitive?
  {
    MadeAbove(b, v.frames, p);
    hide Wf, Step, Made, FrameSound;
  }

  /** ENTER, LVAR, PUSHARG and WRITE: all frames but the current one stay, and its new reference, if any, is to a
      variable that is there. */
  lemma GrownSound(b: Buffer, v: VState, p: Instruction)
    requires Wf(b, v.frames) && Possible(v.frames, OpOf(p)) && Sound(v) && !Strands(b, v, Plain(p))
    requires p.ENTER? || p.LVAR? || p.PUSHARG? || p.WRITE?
    ensures Sound(VStep(b, v, Plain(p)).0)
  {
    var w := VStep(b, v, Plain(p)).0;
    CurrentFacts(b, v.frames);
    hide *;
    SoundFollow(b, v, p);
    VStepKeepsWf(b, v, Plain(p));
    GrownFrames(b, v, p);
    LastSound(v);
    SameBelowIs(v.frames, w.frames);
    SoundLike(Cur(v.frames), Cur(w.frames), v.vars, w.vars, v.frames.top, w.frames.top);
    SoundWhole(b, v, w);
  }

  lemma SameBelowIs(s: AState, t: AState)
    requires SameBelow(s, t)
    ensures s.frames != [] && t.frames != []
  {
  }

  lemma LastSound(v: VState)
    requires Sound(v) && v.frames.frames != []
    ensures FrameSound(Cur(v.frames), v.vars, v.frames.top)
  {
    var n := |v.frames.frames| - 1;
    assert FrameSound(v.frames.frames[n], v.vars, Ceiling(v.frames, n));
  }

  lemma SoundWhole(b: Buffer, v: VState, w: VState)
    requires Wf(b, w.frames) && Sound(v) && SameBelow(v.frames, w.frames) && KeptBelow(v.vars, w.vars, w.frames.top)
    requires forall off :: off in w.vars ==> off <= w.frames.top && w.vars[off].value.Primitive?
    requires FrameSound(Cur(w.frames), w.vars, w.frames.top)
    ensures Sound(w)
  {
    hide Wf, FrameSound;
    OthersSound(b, v, w, |v.frames.frames| - 1);
  }

  lemma GrownFrames(b: Buffer, v: VState, p: Instruction)
    requires Wf(b, v.frames) && Possible(v.frames, OpOf(p)) && Sound(v) && !Strands(b, v, Plain(p))
    requires p.ENTER? || p.LVAR? || p.PUSHARG? || p.WRITE?
    ensures var w := VStep(b, v, Plain(p)).0;
            && SameBelow(v.frames, w.frames) && v.frames.top <= w.frames.top
            && var (regs, before) := (Cur(w.frames).data.regs, Cur(v.frames).data.regs);
               && |regs| == |before|
               && forall r :: 0 <= r < |regs| && regs[r].LocalVarRef? ==>
                    regs[r] == before[r] || (regs[r].off in w.vars && regs[r].off <= w.frames.top)
  {
    CurrentFacts(b, v.frames);
    ThereAll(b, v, p);
    hide Wf, WfFrame, HighBase, FrameSound;
  }

  lemma ThereAll(b: Buffer, v: VState, p: Instruction)
    requires Wf(b, v.frames) && Possible(v.frames, OpOf(p)) && Sound(v)
    ensures var w := VStep(b, v, Plain(p)).0;
            forall off :: off in v.vars ==> off <= v.frames.top && (off in w.vars <==> off <= w.frames.top)
  {
    var w := VStep(b, v, Plain(p)).0;
    hide Wf, VStep, FrameSound;
    forall off | off in v.vars
      ensures off in w.vars <==> off <= w.frames.top
    {
      ThereExactly(b, v, p, off);
    }
  }

  lemma LeaveSound(b: Buffer, v: VState, level: nat)
    requires Wf(b, v.frames) && Sound(v) && !Strands(b, v, Plain(LEAVE(level)))
    ensures Sound(VStep(b, v, Plain(LEAVE(level))).0)
  {
    var w := VStep(b, v, Plain(LEAVE(level))).0;
    SoundFollow(b, v, LEAVE(level));
    VStepKeepsWf(b, v, Plain(LEAVE(level)));
    CurrentFacts(b, v.frames);
    LastSound(v);
    LeaveMeaning(v.frames, level);
    hide Wf, WfFrame, HighBase, VStep, Sound, Leave;
    LeftSound(v, w, level);
    SoundWhole(b, v, w);
  }

  lemma LeftSound(v: VState, w: VState, level: nat)
    requires v.frames.frames != [] && Cur(v.frames).minors != [] && FrameSound(Cur(v.frames), v.vars, v.frames.top)
    requires w.frames.frames != [] && LeaveEffect(v.frames, level, w.frames, Leave(v.frames, level).1)
    requires KeptBelow(v.vars, w.vars, w.frames.top)
    requires var (f, k) := (Cur(v.frames), LeftOver(Cur(v.frames), level));
             k < |f.minors| ==>
               forall r :: 0 <= r < |f.data.regs| && f.data.regs[r].LocalVarRef? && !DefinedFrom(f.minors, k, r) ==>
                 f.data.regs[r].off <= f.minors[k].base
    ensures FrameSound(Cur(w.frames), w.vars, w.frames.top) && SameBelow(v.frames, w.frames)
  {
    hide Leave, DefinedFrom;
    var (f, g) := (Cur(v.frames), Cur(w.frames));
    forall r | 0 <= r < |g.data.regs| && g.data.regs[r].LocalVarRef?
      ensures g.data.regs[r].off in w.vars && g.data.regs[r].off <= w.frames.top
    {
      assert g.data.regs[r] == f.data.regs[r];
    }
  }

  lemma CallSound(b: Buffer, v: VState, fn: FnInfo, out: nat)
    requires Wf(b, v.frames) && GoodFn(fn) && Sound(v) && !Strands(b, v, Plain(CALL(fn, out)))
    ensures Sound(VStep(b, v, Plain(CALL(fn, out))).0)
  {
    var w := VStep(b, v, Plain(CALL(fn, out))).0;
    var (n, f) := (|v.frames.frames| - 1, Cur(v.frames));
    CurrentFacts(b, v.frames);
    CallOutcome(b, v, fn, out);
    hide *;
    SoundFollow(b, v, CALL(fn, out));
    VStepKeepsWf(b, v, Plain(CALL(fn, out)));
    LastSound(v);
    if w.frames == v.frames {
      SoundLike(f, f, v.vars, w.vars, v.frames.top, w.frames.top);
      SameAsBefore(v.frames);
      SoundWhole(b, v, w);
    } else {
      CallFrames(v.frames, w.frames, fn, out);
      OthersSound(b, v, w, n);
      SoundLike(f, Caller(f), v.vars, w.vars, v.frames.top, v.frames.top);
      CalleeSound(v.frames, w, fn, out);
      CalledSound(v.frames, w, fn, out);
    }
  }

  lemma SameAsBefore(s: AState)
    requires s.frames != []
    ensures SameBelow(s, s)
  {
  }

  lemma CallOutcome(b: Buffer, v: VState, fn: FnInfo, out: nat)
    requires Wf(b, v.frames) && GoodFn(fn) && Sound(v) && !Strands(b, v, Plain(CALL(fn, out)))
    ensures v.frames.frames != []
    ensures var w := VStep(b, v, Plain(CALL(fn, out))).0;
            || w.frames == v.frames
            || (&& v.frames.top <= w.frames.top
                && w.frames.frames ==
                     v.frames.frames[..|v.frames.frames| - 1] + [Caller(Cur(v.frames)), Callee(v.frames, fn, out)]
                && (fn.initial.LocalVarRef? && fn.numAnyRegs > 0 ==>
                      fn.initial.off in w.vars && fn.initial.off <= w.frames.top))
  {
    CurrentFacts(b, v.frames);
    CallEffect(b, v.frames, fn, out);
    ThereAll(b, v, CALL(fn, out));
    hide Wf, Call, FrameSound, WfFrame;
  }

  /** The frames around a call. */
  lemma CallFrames(s: AState, t: AState, fn: FnInfo, out: nat)
    requires s.frames != [] && t.frames == s.frames[..|s.frames| - 1] + [Caller(Cur(s)), Callee(s, fn, out)]
    ensures var n := |s.frames| - 1;
            && |t.frames| == n + 2 && t.frames[..n] == s.frames[..n] && t.frames[n] == Caller(Cur(s))
            && t.frames[n + 1] == Callee(s, fn, out) && t.frames[n].prevTop == s.frames[n].prevTop
            && Ceiling(t, n) == s.top && Ceiling(t, n + 1) == t.top && Caller(Cur(s)).data.regs == Cur(s).data.regs
  {
  }

  lemma CalledSound(s: AState, w: VState, fn: FnInfo, out: nat)
    requires s.frames != [] && |w.frames.frames| == |s.frames| + 1
    requires var n := |s.frames| - 1;
             && w.frames.frames[n] == Caller(Cur(s)) && w.frames.frames[n + 1] == Callee(s, fn, out)
             && Ceiling(w.frames, n) == s.top && Ceiling(w.frames, n + 1) == w.frames.top
             && forall i :: 0 <= i < n ==> FrameSound(w.frames.frames[i], w.vars, Ceiling(w.frames, i))
    requires FrameSound(Caller(Cur(s)), w.vars, s.top) && FrameSound(Callee(s, fn, out), w.vars, w.frames.top)
    requires forall off :: off in w.vars ==> off <= w.frames.top && w.vars[off].value.Primitive?
    ensures Sound(w)
  {
    hide FrameSound, Caller, Callee, Ceiling;
  }

  lemma CalleeSound(s: AState, w: VState, fn: FnInfo, out: nat)
    requires s.frames != []
    requires fn.initial.LocalVarRef? && fn.numAnyRegs > 0 ==>
               fn.initial.off in w.vars && fn.initial.off <= w.frames.top
    ensures FrameSound(Callee(s, fn, out), w.vars, w.frames.top)
  {
  }

  lemma SomeRef(b: Buffer, v: VState, p: Instruction, reg: nat, kept: Variables)
    requires Wf(b, v.frames) && Possible(v.frames, OpOf(p)) && p == RET(reg) && !Strands(b, v, Plain(p))
    requires FrameSound(Cur(v.frames), v.vars, v.frames.top) && KeptBelow(v.vars, kept, Cur(v.frames).prevTop)
    requires Cur(v.frames).data.returnReg != INVALID_REG && Ret(v.frames, Some(reg)).1 == Done
    requires reg < |Cur(v.frames).data.regs| && Cur(v.frames).data.regs[reg].LocalVarRef?
    ensures var off := Cur(v.frames).data.regs[reg].off; off in kept && off <= Cur(v.frames).prevTop
  {
    hide Wf;
  }

  lemma RestSound(w: VState, n: nat)
    requires |w.frames.frames| == n + 1 && FrameSound(w.frames.frames[n], w.vars, w.frames.top)
    requires forall i :: 0 <= i < n ==> FrameSound(w.frames.frames[i], w.vars, Ceiling(w.frames, i))
    requires forall off :: off in w.vars ==> off <= w.frames.top && w.vars[off].value.Primitive?
    ensures Sound(w)
  {
    hide FrameSound;
  }

  lemma RetSound(b: Buffer, v: VState, p: Instruction, reg: Option<nat>)
    requires Wf(b, v.frames) && Possible(v.frames, OpOf(p)) && Sound(v) && !Strands(b, v, Plain(p))
    requires p == (if reg.Some? then RET(reg.value) else RETVOID)
    ensures Sound(VStep(b, v, Plain(p)).0)
  {
    var w := VStep(b, v, Plain(p)).0;
    CurrentFacts(b, v.frames);
    SoundFollow(b, v, p);
    VStepKeepsWf(b, v, Plain(p));
    LastSound(v);
    if w.frames == v.frames {
      hide *;
      SoundLike(Cur(v.frames), Cur(v.frames), v.vars, w.vars, v.frames.top, w.frames.top);
      SameAsBefore(v.frames);
      SoundWhole(b, v, w);
    } else {
      RetFrames(b, v, p, reg);
      hide *;
      OthersSound(b, v, w, |v.frames.frames| - 2);
      RestSound(w, |v.frames.frames| - 2);
    }
  }

  lemma RetFrames(b: Buffer, v: VState, p: Instruction, reg: Option<nat>)
    requires Wf(b, v.frames) && Possible(v.frames, OpOf(p)) && Sound(v) && !Strands(b, v, Plain(p))
    requires p == (if reg.Some? then RET(reg.value) else RETVOID)
    requires VStep(b, v, Plain(p)).0.frames != v.frames
    ensures var (w, n) := (VStep(b, v, Plain(p)).0, |v.frames.frames| - 2);
            && n >= 0 && |w.frames.frames| == n + 1 && w.frames.frames[..n] == v.frames.frames[..n]
            && w.frames.frames[n].prevTop == v.frames.frames[n].prevTop
            && FrameSound(w.frames.frames[n], w.vars, w.frames.top)
  {
    var w := VStep(b, v, Plain(p)).0;
    var (n, f) := (|v.frames.frames| - 2, Cur(v.frames));
    CurrentFacts(b, v.frames);
    SoundFollow(b, v, p);
    LastSound(v);
    RetEffect(b, v.frames, reg);
    assert FrameSound(v.frames.frames[n], v.vars, Ceiling(v.frames, n));
    hide Wf, WfFrame, HighBase, VStep, FrameSound, Sound;
    assert Ceiling(v.frames, n) == f.prevTop;
    if f.data.returnReg != INVALID_REG && f.data.regs[reg.value].LocalVarRef? {
      SomeRef(b, v, p, reg.value, w.vars);
    }
    hide Strands, Step, Ceiling;
    SoundLike(v.frames.frames[n], w.frames.frames[n], v.vars, w.vars, f.prevTop, w.frames.top);
  }

  lemma StoreSound(b: Buffer, v: VState, to: nat, from: nat)
    requires Wf(b, v.frames) && Defined(v, STORE(to, from)) && Sound(v)
    ensures Sound(VStep(b, v, STORE(to, from)).0)
  {
    hide Wf;
    var w := VStep(b, v, STORE(to, from)).0;
    forall i | 0 <= i < |w.frames.frames|
      ensures FrameSound(w.frames.frames[i], w.vars, Ceiling(w.frames, i))
    {
      assert FrameSound(v.frames.frames[i], v.vars, Ceiling(v.frames, i));
    }
  }

  lemma LoadSound(b: Buffer, v: VState, out: nat, from: nat)
    requires Wf(b, v.frames) && Defined(v, LVALUE(out, from)) && Sound(v)
    ensures Sound(VStep(b, v, LVALUE(out, from)).0)
  {
    var w := VStep(b, v, LVALUE(out, from)).0;
    VStepKeepsWf(b, v, LVALUE(out, from));
    CurrentFacts(b, v.frames);
    LastSound(v);
    assert SameBelow(v.frames, w.frames) by {
      hide Wf, WfFrame, HighBase, Sound, FrameSound;
    }
    hide Wf, WfFrame, HighBase;
    SoundLike(Cur(v.frames), Cur(w.frames), v.vars, w.vars, v.frames.top, w.frames.top);
    hide VStep, FrameSound;
    SoundWhole(b, v, w);
  }

  lemma StepSound(b: Buffer, v: VState, i: VInstruction)
    requires Wf(b, v.frames) && Defined(v, i) && Sound(v) && !Strands(b, v, i)
    ensures Sound(VStep(b, v, i).0)
  {
    hide Wf, Sound, VStep, Strands, Possible;
    match i {
      case STORE(to, from) => StoreSound(b, v, to, from);
      case LVALUE(out, from) => LoadSound(b, v, out, from);
      case Plain(p) =>
        match p {
          case LEAVE(level) => LeaveSound(b, v, level);
          case CALL(fn, out) =>
            GoodCall(v.frames, fn, out);
            CallSound(b, v, fn, out);
          case RET(reg) => RetSound(b, v, p, Some(reg));
          case RETVOID => RetSound(b, v, p, None);
          case _ => GrownSound(b, v, p);
        }
    }
  }

  lemma GoodCall(s: AState, fn: FnInfo, out: nat)
    requires Possible(s, OpOf(CALL(fn, out)))
    ensures GoodFn(fn)
  {
  }

  /** Register r of the i-th frame refers to what is not there. */
  lemma Dangles(w: VState, i: nat, r: nat)
    requires i < |w.frames.frames| && r < |w.frames.frames[i].data.regs|
    requires w.frames.frames[i].data.regs[r].LocalVarRef? && w.frames.frames[i].data.regs[r].off !in w.vars
    ensures !NoneDangling(w)
  {
  }

  lemma LeaveStrands(b: Buffer, v: VState, level: nat)
    requires Wf(b, v.frames) && Sound(v) && Strands(b, v, Plain(LEAVE(level)))
    ensures !NoneDangling(VStep(b, v, Plain(LEAVE(level))).0)
  {
    var (w, f) := (VStep(b, v, Plain(LEAVE(level))).0, Cur(v.frames));
    var k := LeftOver(f, level);
    var r: nat :| r < |f.data.regs| && f.data.regs[r].LocalVarRef? && !DefinedFrom(f.minors, k, r)
                  && f.data.regs[r].off > f.minors[k].base;
    CurrentFacts(b, v.frames);
    LastSound(v);
    ThereAll(b, v, LEAVE(level));
    LeaveMeaning(v.frames, level);
    hide Wf, WfFrame, HighBase, Leave, DefinedFrom, Sound, NoneDangling, Strands;
    LeftThere(v, w, level, r);
    Dangles(w, |v.frames.frames| - 1, r);
  }

  lemma LeftThere(v: VState, w: VState, level: nat, r: nat)
    requires v.frames.frames != [] && Cur(v.frames).minors != [] && r < |Cur(v.frames).data.regs|
    requires LeaveEffect(v.frames, level, w.frames, Leave(v.frames, level).1)
    requires var (f, k) := (Cur(v.frames), LeftOver(Cur(v.frames), level));
             !DefinedFrom(f.minors, k, r) && k < |f.minors|
    ensures |w.frames.frames| == |v.frames.frames| && r < |Cur(w.frames).data.regs|
    ensures Cur(w.frames).data.regs[r] == Cur(v.frames).data.regs[r]
    ensures var (f, k) := (Cur(v.frames), LeftOver(Cur(v.frames), level));
            w.frames.top == f.minors[k].base
  {
    hide Leave, DefinedFrom;
  }

  lemma RetStrands(b: Buffer, v: VState, reg: nat)
    requires Wf(b, v.frames) && Possible(v.frames, OpOf(RET(reg))) && Sound(v) && Strands(b, v, Plain(RET(reg)))
    ensures !NoneDangling(VStep(b, v, Plain(RET(reg))).0)
  {
    var (w, f) := (VStep(b, v, Plain(RET(reg))).0, Cur(v.frames));
    CurrentFacts(b, v.frames);
    LastSound(v);
    ThereAll(b, v, RET(reg));
    RetEffect(b, v.frames, Some(reg));
    hide Wf, WfFrame, HighBase, Ret, Sound, NoneDangling;
    Dangles(w, |v.frames.frames| - 2, f.data.returnReg);
  }

  lemma CallStrands(b: Buffer, v: VState, fn: FnInfo, out: nat)
    requires Wf(b, v.frames) && GoodFn(fn) && Sound(v) && Strands(b, v, Plain(CALL(fn, out)))
    ensures !NoneDangling(VStep(b, v, Plain(CALL(fn, out))).0)
  {
    var w := VStep(b, v, Plain(CALL(fn, out))).0;
    CallEffect(b, v.frames, fn, out);
    CallFrames(v.frames, w.frames, fn, out);
    hide Wf, Call, Sound, NoneDangling;
    Dangles(w, |v.frames.frames|, 0);
  }

  lemma WriteStrands(b: Buffer, v: VState, reg: nat, value: Value)
    requires Wf(b, v.frames) && Sound(v) && Strands(b, v, Plain(WRITE(reg, value)))
    ensures !NoneDangling(VStep(b, v, Plain(WRITE(reg, value))).0)
  {
    var w := VStep(b, v, Plain(WRITE(reg, value))).0;
    hide Wf, Sound, NoneDangling;
    Dangles(w, |v.frames.frames| - 1, reg);
  }

  /** A step from where all references are sound leaves one that dangles if and only if it strands one; and
      otherwise all are sound again. */
  lemma DanglesExactly(b: Buffer, v: VState, i: VInstruction)
    requires Wf(b, v.frames) && Defined(v, i) && Sound(v)
    ensures NoneDangling(VStep(b, v, i).0) <==> !Strands(b, v, i)
    ensures NoneDangling(VStep(b, v, i).0) ==> Sound(VStep(b, v, i).0)
  {
    if !Strands(b, v, i) {
      StepSound(b, v, i);
      hide Wf, VStep, Strands;
      SoundRefers(VStep(b, v, i).0);
    } else {
      assert i.Plain? && Possible(v.frames, OpOf(i.i));
      hide Wf, VStep, Sound, NoneDangling;
      match i.i {
        case LEAVE(level) => LeaveStrands(b, v, level);
        case RET(reg) => RetStrands(b, v, reg);
        case CALL(fn, out) => CallStrands(b, v, fn, out);
        case WRITE(reg, value) => WriteStrands(b, v, reg, value);
        case _ =>
      }
    }
  }

  lemma SoundRefers(w: VState)
    requires Sound(w)
    ensures NoneDangling(w)
  {
    forall i, r | 0 <= i < |w.frames.frames| && 0 <= r < |w.frames.frames[i].data.regs|
                  && w.frames.frames[i].data.regs[r].LocalVarRef?
      ensures w.frames.frames[i].data.regs[r].off in w.vars
    {
      assert FrameSound(w.frames.frames[i], w.vars, Ceiling(w.frames, i));
    }
  }

  /** No instruction of the run strands a reference. */
  ghost predicate NeverStrands(b: Buffer, v: VState, code: seq<VInstruction>)
    requires Wf(b, v.frames)
    decreases |code|
  {
    code != [] && Defined(v, code[0]) ==>
      && !Strands(b, v, code[0])
      && (VStepKeepsWf(b, v, code[0]); NeverStrands(b, VStep(b, v, code[0]).0, code[1..]))
  }

  /** No reference dangles before, in or after the run. */
  ghost predicate NeverDangling(b: Buffer, v: VState, code: seq<VInstruction>)
    requires Wf(b, v.frames)
    decreases |code|
  {
    && NoneDangling(v)
    && (code != [] && Defined(v, code[0]) ==>
          (VStepKeepsWf(b, v, code[0]); NeverDangling(b, VStep(b, v, code[0]).0, code[1..])))
  }

  /** A run from where all references are sound leaves none that dangles at any time if and only if none of its
      instructions strands one. */
  lemma {:induction false} RunDanglesExactly(b: Buffer, v: VState, code: seq<VInstruction>)
    requires Wf(b, v.frames) && Sound(v)
    ensures NeverDangling(b, v, code) <==> NeverStrands(b, v, code)
    decreases |code|
  {
    SoundRefers(v);
    if code != [] && Defined(v, code[0]) {
      DanglesExactly(b, v, code[0]);
      VStepKeepsWf(b, v, code[0]);
      hide Wf, VStep, Sound, NoneDangling, Strands;
      var w := VStep(b, v, code[0]).0;
      if NoneDangling(w) {
        RunDanglesExactly(b, w, code[1..]);
      }
    }
  }

  /** A return of the outermost frame, where running ends. */
  predicate Ends(v: VState, i: VInstruction) {
    i.Plain? && (i.i.RET? || i.i.RETVOID?) && |v.frames.frames| == 1
  }

  /** Running code comes by no instruction whose effect the source leaves undefined. */
  ghost predicate Safe(b: Buffer, v: VState, code: seq<VInstruction>)
    requires Wf(b, v.frames)
    decreases |code|
  {
    code != [] && !Ends(v, code[0]) ==>
      && Defined(v, code[0])
      && (VStep(b, v, code[0]).1 == Done ==>
            (VStepKeepsWf(b, v, code[0]); Safe(b, VStep(b, v, code[0]).0, code[1..])))
  }

  /** Code that copies no reference, and calls functions with proper banks, is safe. */
  lemma {:induction false} SafeWithoutCopies(b: Buffer, v: VState, code: seq<VInstruction>)
    requires Wf(b, v.frames) && Anchored(v) && NoneCopies(b, v, code)
    requires forall i :: 0 <= i < |code| && code[i].Plain? && code[i].i.CALL? ==> GoodFn(code[i].i.fn)
    ensures Safe(b, v, code)
    decreases |code|
  {
    if code != [] && !Ends(v, code[0]) {
      AnchoredRefers(b, v);
      assert Defined(v, code[0]);
      StepAnchored(b, v, code[0]);
      VStepKeepsWf(b, v, code[0]);
      hide Wf, VStep, Anchored;
      SafeWithoutCopies(b, VStep(b, v, code[0]).0, code[1..]);
    }
  }

  /** So is code that strands none. */
  lemma {:induction false} SafeWithoutStranding(b: Buffer, v: VState, code: seq<VInstruction>)
    requires Wf(b, v.frames) && Sound(v) && NeverStrands(b, v, code)
    requires forall i :: 0 <= i < |code| && code[i].Plain? && code[i].i.CALL? ==> GoodFn(code[i].i.fn)
    ensures Safe(b, v, code)
    decreases |code|
  {
    if code != [] && !Ends(v, code[0]) {
      SoundRefers(v);
      CurrentFacts(b, v.frames);
      assert Defined(v, code[0]) by {
        hide Wf, Sound;
      }
      StepSound(b, v, code[0]);
      VStepKeepsWf(b, v, code[0]);
      hide Wf, VStep, Sound, Strands;
      SafeWithoutStranding(b, VStep(b, v, code[0]).0, code[1..]);
    }
  }

  lemma {:induction false} VExecutesOneMore(b: Buffer, v: VState, code: seq<VInstruction>, w: VState, i: VInstruction)
    requires Wf(b, v.frames) && VExecutes(b, v, code, w, Done) && Wf(b, w.frames) && Defined(w, i)
    ensures VExecutes(b, v, code + [i], VStep(b, w, i).0, VStep(b, w, i).1)
    decreases |code|
  {
    if code == [] {
      assert ([] + [i])[1..] == [];
      VStepKeepsWf(b, v, i);
    } else {
      VStepKeepsWf(b, v, code[0]);
      hide VStep, Wf;
      VExecutesOneMore(b, VStep(b, v, code[0]).0, code[1..], w, i);
      assert (code + [i])[1..] == code[1..] + [i];
    }
  }

  lemma SafeNext(b: Buffer, v: VState, code: seq<VInstruction>, n: nat)
    requires Wf(b, v.frames) && n < |code| && Safe(b, v, code[n..]) && !Ends(v, code[n])
    ensures Defined(v, code[n]) && Wf(b, VStep(b, v, code[n]).0.frames)
    ensures VStep(b, v, code[n]).1 == Done ==> Safe(b, VStep(b, v, code[n]).0, code[n + 1..])
  {
    assert code[n..][0] == code[n] && code[n..][1..] == code[n + 1..];
    VStepKeepsWf(b, v, code[n]);
    hide VStep, Wf;
  }

  // ----- A copy that dangles

  /** A minor frame is entered, makes a variable, and is left; the reference has been copied meanwhile. */
  const COPYING: seq<VInstruction> :=
    [Plain(ENTER), Plain(LVAR(U8, 0)), Plain(WRITE(1, LocalVarRef(4))), Plain(LEAVE(1))]

  /** A single function with two registers, in a small buffer. */
  function Small(top: nat, minors: seq<AMinor>, regs: seq<Value>): AState {
    AState(top, [AFrame(0, minors, FrameData(SIZE_MAX, 0, SIZE_MAX, SIZE_MAX, 0, INVALID_REG, regs))])
  }

  lemma SmallSteps()
    ensures var (outer, z) := (AMinor(0, []), Zeroed);
            && Enter(SMALL_BUFFER, Small(0, [outer], [z, z])) == (Small(1, [outer, outer], [z, z]), Done)
            && LocalTops(SMALL_BUFFER, 1, 1, 1) == Some((4, 5))
            && LeaveOne(Small(5, [outer, AMinor(0, [0])], [LocalVarRef(4), LocalVarRef(4)])) ==
                 (Small(0, [outer], [Invalid, LocalVarRef(4)]), Done)
  {
    var (outer, inner, regs) := (AMinor(0, []), AMinor(0, [0]), [LocalVarRef(4), LocalVarRef(4)]);
    assert [outer] + [outer] == [outer, outer] && [outer, inner][..1] == [outer];
    assert [0][1..] == [] && Invalidate(regs, [0]) == regs[0 := Invalid] == [Invalid, LocalVarRef(4)];
    OnlyFrame();
  }

  lemma OnlyFrame()
    ensures forall f: AFrame, g: AFrame {:trigger [f][0 := g]} :: [f][0 := g] == [g]
  {
  }

  lemma SmallLocal()
    ensures AddLocal(SMALL_BUFFER, Small(1, [AMinor(0, []), AMinor(0, [])], [Zeroed, Zeroed]), 1, 1, 0) ==
              (Small(5, [AMinor(0, []), AMinor(0, [0])], [LocalVarRef(4), Zeroed]), Done)
  {
    SmallSteps();
    OnlyFrame();
    hide LocalTops;
    assert [0] + [] == [0];
    assert [AMinor(0, []), AMinor(0, [])][1 := AMinor(0, [0])] == [AMinor(0, []), AMinor(0, [0])];
    assert [Zeroed, Zeroed][0 := LocalVarRef(4)] == [LocalVarRef(4), Zeroed];
  }

  /** The frames after n instructions. */
  function After(n: nat): AState {
    var (outer, inner) := (AMinor(0, []), AMinor(0, [0]));
    if n == 0 then Small(0, [outer], [Zeroed, Zeroed])
    else if n == 1 then Small(1, [outer, outer], [Zeroed, Zeroed])
    else if n == 2 then Small(5, [outer, inner], [LocalVarRef(4), Zeroed])
    else if n == 3 then Small(5, [outer, inner], [LocalVarRef(4), LocalVarRef(4)])
    else Small(0, [outer], [Invalid, LocalVarRef(4)])
  }

  /** The variables after n instructions. */
  function VarsAfter(n: nat): Variables {
    if n == 2 || n == 3 then map[4 := Variable(U8, Primitive(U8, 0))] else map[]
  }

  lemma SmallWf(n: nat)
    ensures Wf(SMALL_BUFFER, After(n))
  {
  }

  lemma SmallRun(n: nat)
    requires n < 4
    ensures Wf(SMALL_BUFFER, After(n)) && Possible(After(n), OpOf(COPYING[n].i))
    ensures Step(SMALL_BUFFER, After(n), OpOf(COPYING[n].i)) == (After(n + 1), Done)
  {
    SmallWf(n);
    SmallSteps();
    SmallLocal();
    OnlyFrame();
    hide Wf, Enter, LocalTops, AddLocal, LeaveOne;
    var (s, t) := (After(n), LeaveOne(After(n)).0);
    assert [LocalVarRef(4), Zeroed][1 := LocalVarRef(4)] == [LocalVarRef(4), LocalVarRef(4)];
    if n == 3 {
      assert Leave(s, 1) == Leave(t, 0);
    }
  }

  lemma SmallVars(n: nat)
    requires n < 4
    ensures Wf(SMALL_BUFFER, After(n)) && Defined(VState(After(n), VarsAfter(n)), COPYING[n])
    ensures VStep(SMALL_BUFFER, VState(After(n), VarsAfter(n)), COPYING[n]) ==
              (VState(After(n + 1), VarsAfter(n + 1)), Done)
  {
    SmallRun(n);
    SmallSteps();
    hide Wf, Step, LocalTops;
    var (s, w) := (After(n), VarsAfter(n + 1));
    assert Below(VarsAfter(n), After(n + 1).top) + Made(SMALL_BUFFER, s, COPYING[n].i) == w;
  }

  lemma {:induction false} SmallExecutes(n: nat)
    requires n <= 4
    ensures Wf(SMALL_BUFFER, After(0))
    ensures VExecutes(SMALL_BUFFER, VState(After(0), map[]), COPYING[..n], VState(After(n), VarsAfter(n)), Done)
  {
    hide *;
    SmallWf(0);
    FourInstructions();
    if n == 0 {
      NothingYet();
    } else {
      SmallExecutes(n - 1);
      SmallVars(n - 1);
      VExecutesOneMore(SMALL_BUFFER, VState(After(0), map[]), COPYING[..n - 1], VState(After(n - 1), VarsAfter(n - 1)),
                       COPYING[n - 1]);
      assert COPYING[..n] == COPYING[..n - 1] + [COPYING[n - 1]];
    }
  }

  lemma FourInstructions()
    ensures |COPYING| == 4
  {
  }

  lemma NothingYet()
    requires Wf(SMALL_BUFFER, After(0))
    ensures VExecutes(SMALL_BUFFER, VState(After(0), map[]), COPYING[..0], VState(After(0), VarsAfter(0)), Done)
  {
    hide Wf, VStep;
  }

  /** Nothing refers to a variable in the beginning; in the end the copy refers to one that is gone, and
      reading what it refers to is undefined. */
  lemma CopyDangles()
    ensures var (v, w) := (VState(After(0), map[]), VState(After(4), map[]));
            && Wf(SMALL_BUFFER, v.frames) && Anchored(v) && VExecutes(SMALL_BUFFER, v, COPYING, w, Done)
            && Wf(SMALL_BUFFER, w.frames) && !Refers(w, 1) && !Safe(SMALL_BUFFER, w, [LVALUE(0, 1)])
  {
    hide *;
    SmallWf(4);
    WholeRun();
    NothingDangling();
    DanglingUnsafe(VState(After(4), map[]), LVALUE(0, 1));
  }

  lemma WholeRun()
    ensures Wf(SMALL_BUFFER, After(0))
    ensures VExecutes(SMALL_BUFFER, VState(After(0), map[]), COPYING, VState(After(4), map[]), Done)
  {
    SmallExecutes(4);
    hide Wf, VExecutes, VStep;
    assert COPYING[..4] == COPYING;
  }

  lemma NothingDangling()
    ensures Anchored(VState(After(0), map[])) && After(4).frames != []
    ensures var w := VState(After(4), map[]); !Refers(w, 1) && !Defined(w, LVALUE(0, 1))
  {
    assert Target(After(4), 1) == Some(4);
  }

  lemma DanglingUnsafe(v: VState, i: VInstruction)
    requires Wf(SMALL_BUFFER, v.frames) && !i.Plain? && !Defined(v, i)
    ensures !Safe(SMALL_BUFFER, v, [i])
  {
    hide Wf, VStep, Defined;
  }
}
