/** The frame machine without its pointers: a stack of calling frames, each a stack of minor frames.
    What the instructions of slake/rt/exec.cc mean, and what holds over whole runs of them. */
module FrameSpec {
  import opened Primitives
  import opened Wrappers
  import opened StackMemory

  const INVALID_REG: nat := 0xFFFF_FFFF

  /** A minor frame: where the stack was when it was entered, and the registers that define its
      local variables, newest first. */
  datatype AMinor = AMinor(base: nat, locals: seq<nat>)

  datatype AFrame = AFrame(prevTop: nat, minors: seq<AMinor>, data: FrameData)

  datatype AState = AState(top: nat, frames: seq<AFrame>)

  datatype Outcome = Done | StackOverflow | InvalidOperands | FrameBoundaryExceeded

  /** Plain and aligned allocation: the new top, unless the stack overflows. */
  function Bump(b: Buffer, top: nat, size: nat): Option<nat> {
    if top + size > b.size then None else Some(top + size)
  }

  function AlignedBump(b: Buffer, top: nat, size: nat, align: nat): Option<nat>
    requires align > 0 && top <= b.size <= b.address
  {
    Bump(b, top, size + (b.address - top) % align)
  }

  /** A bank of registers of a function: how many, and the size and alignment of one. */
  datatype BankInfo = BankInfo(count: nat, size: nat, align: nat)

  /** The function called: its register banks in allocation order, and its any-typed registers with
      what they start with. */
  datatype FnInfo = FnInfo(banks: seq<BankInfo>, numAnyRegs: nat, initial: Value)

  predicate GoodFn(f: FnInfo) {
    forall i :: 0 <= i < |f.banks| ==> Fits(f.banks[i].size, f.banks[i].align)
  }

  function BankBump(b: Buffer, top: nat, bank: BankInfo): Option<nat>
    requires bank.align > 0 && top <= b.size <= b.address
  {
    if bank.count == 0 then Some(top) else AlignedBump(b, top, bank.size * bank.count, bank.align)
  }

  /** The top after the first n banks. */
  function BanksBump(b: Buffer, top: nat, f: FnInfo, n: nat): (t: Option<nat>)
    requires n <= |f.banks| && GoodFn(f) && top <= b.size <= b.address
    ensures t.Some? ==> top <= t.value <= b.size
  {
    if n == 0 then Some(top) else
      match BanksBump(b, top, f, n - 1)
      case None => None
      case Some(t) => BankBump(b, t, f.banks[n - 1])
  }

  /** The first n banks on the stack: one block for each that has a register. */
  function BankItems(b: Buffer, top: nat, f: FnInfo, n: nat): seq<Item>
    requires n <= |f.banks| && GoodFn(f) && top <= b.size <= b.address && BanksBump(b, top, f, n).Some?
  {
    if n == 0 then [] else
      var bank := f.banks[n - 1];
      BankItems(b, top, f, n - 1)
      + if bank.count == 0 then []
        else [Item(BanksBump(b, top, f, n).value, Block(bank.size * bank.count, Bank(bank.align)))]
  }

  function Cur(s: AState): AFrame
    requires s.frames != []
  {
    s.frames[|s.frames| - 1]
  }

  function SetCur(s: AState, f: AFrame): AState
    requires s.frames != []
  {
    s.(frames := s.frames[|s.frames| - 1 := f])
  }

  /** The frames with other data in the current one. */
  function WithData(fs: seq<AFrame>, data: FrameData): (r: seq<AFrame>)
    requires fs != []
  {
    fs[|fs| - 1 := fs[|fs| - 1].(data := data)]
  }

  // ----- Instructions

  function Enter(b: Buffer, s: AState): (AState, Outcome)
    requires GoodBuffer(b) && s.top <= b.size && s.frames != []
  {
    match AlignedBump(b, s.top, b.sizes.minor, b.sizes.minorAlign)
    case None => (s, StackOverflow)
    case Some(t) =>
      (SetCur(s, Cur(s).(minors := Cur(s).minors + [AMinor(s.top, [])])).(top := t), Done)
  }

  /** Invalidates the registers of the given local variables. */
  function Invalidate(regs: seq<Value>, locals: seq<nat>): (r: seq<Value>)
    ensures |r| == |regs|
    ensures forall i :: 0 <= i < |regs| ==> r[i] == if i in locals then Invalid else regs[i]
  {
    if locals == [] then regs
    else
      var r := Invalidate(regs, locals[1..]);
      assert forall i :: i in locals <==> i == locals[0] || i in locals[1..];
      if locals[0] < |regs| then r[locals[0] := Invalid] else r
  }

  /** Leaves the innermost minor frame; the outermost one of a function cannot be left. */
  function LeaveOne(s: AState): (AState, Outcome)
    requires s.frames != [] && Cur(s).minors != []
  {
    var f := Cur(s);
    if |f.minors| == 1 then (s, FrameBoundaryExceeded) else
      var m := f.minors[|f.minors| - 1];
      var left := AFrame(f.prevTop, f.minors[..|f.minors| - 1], f.data.(regs := Invalidate(f.data.regs, m.locals)));
      (SetCur(s, left).(top := m.base), Done)
  }

  function Leave(s: AState, level: nat): (r: (AState, Outcome))
    requires s.frames != [] && Cur(s).minors != []
    ensures r.0.frames != [] && Cur(r.0).minors != []
    decreases level
  {
    if level == 0 then (s, Done) else
      var (t, o) := LeaveOne(s);
      if o != Done then (t, o) else Leave(t, level - 1)
  }

  /** Allocates a local variable: its data, two bytes that say its type, and its record. */
  function AddLocal(b: Buffer, s: AState, size: nat, align: nat, reg: nat): (AState, Outcome)
    requires GoodBuffer(b) && s.top <= b.size && s.frames != [] && Cur(s).minors != [] && align > 0
    requires reg < |Cur(s).data.regs|
  {
    match LocalTops(b, s.top, size, align)
    case None => (s, StackOverflow)
    case Some(t) =>
      var f := Cur(s);
      var m := f.minors[|f.minors| - 1];
      var minors := f.minors[|f.minors| - 1 := m.(locals := [reg] + m.locals)];
      var regs := f.data.regs[reg := LocalVarRef(t.0)];
      (SetCur(s, AFrame(f.prevTop, minors, f.data.(regs := regs))).(top := t.1), Done)
  }

  /** The offset of a new local variable's type tag, and the top after its record. */
  function LocalTops(b: Buffer, top: nat, size: nat, align: nat): Option<(nat, nat)>
    requires GoodBuffer(b) && top <= b.size && align > 0
  {
    match AlignedBump(b, top, size, align)
    case None => None
    case Some(t) =>
      if t + 2 > b.size then None else
        (match AlignedBump(b, t + 2, b.sizes.record, b.sizes.recordAlign)
         case None => None
         case Some(r) => Some((t + 2, r)))
  }

  /** Subtraction of 64-bit offsets. */
  function Minus64(a: nat, c: nat): (r: nat)
    requires a <= SIZE_MAX && c <= SIZE_MAX
    ensures r <= 0xFFFF_FFFF_FFFF_FFFF && (c + r == a || c + r == a + 0x1_0000_0000_0000_0000)
  {
    if a >= c then a - c else SIZE_MAX + 1 + a - c
  }

  /** Pushes an argument for the next call. The stack has grown before the check that the argument
      directly follows the last one, so it stays grown when that check fails. */
  function PushArg(b: Buffer, s: AState): (AState, Outcome)
    requires GoodBuffer(b) && s.top <= b.size && s.frames != [] && Cur(s).data.offNextArgs <= SIZE_MAX
  {
    var d := Cur(s).data;
    match AlignedBump(b, s.top, b.sizes.value, b.sizes.valueAlign)
    case None => (s, StackOverflow)
    case Some(t) =>
      if d.numNextArgs > 0 && Minus64(t, d.offNextArgs) != b.sizes.value then (s.(top := t), InvalidOperands)
      else
        var begin := if d.numNextArgs > 0 then d.offNextArgsBegin else s.top;
        var e := d.(offNextArgs := t, offNextArgsBegin := begin, numNextArgs := d.numNextArgs + 1);
        (SetCur(s, Cur(s).(data := e)).(top := t), Done)
  }

  /** Where a new frame and its first minor frame are, and the top after its register banks. */
  function FrameTops(b: Buffer, top: nat, f: FnInfo): Option<(nat, nat, nat)>
    requires GoodBuffer(b) && top <= b.size && GoodFn(f)
  {
    match AlignedBump(b, top, b.sizes.major, b.sizes.majorAlign)
    case None => None
    case Some(t) =>
      (match AlignedBump(b, t, b.sizes.minor, b.sizes.minorAlign)
       case None => None
       case Some(u) =>
         (match BanksBump(b, u, f, |f.banks|)
          case None => None
          case Some(v) => Some((t, u, v))))
  }

  /** What a new frame starts with. */
  function NewData(f: FnInfo, offArgs: nat, numArgs: nat, out: nat): FrameData {
    FrameData(if numArgs > 0 then offArgs else SIZE_MAX, numArgs, SIZE_MAX, SIZE_MAX, 0, out,
        seq(f.numAnyRegs, _ => f.initial))
  }

  /** Pushes the frame of a call; on overflow nothing changes. */
  function Create(b: Buffer, s: AState, f: FnInfo, offArgs: nat, numArgs: nat, out: nat): (AState, Outcome)
    requires GoodBuffer(b) && s.top <= b.size && GoodFn(f)
  {
    match FrameTops(b, s.top, f)
    case None => (s, StackOverflow)
    case Some(p) =>
      var data := NewData(f, offArgs, numArgs, out);
      if s.frames == [] then (AState(p.2, [AFrame(s.top, [AMinor(s.top, [])], data)]), Done)
      else
        var caller := Cur(s);
        var callee := AFrame(s.top, [AMinor(caller.data.offNextArgsBegin, [])], data);
        (AState(p.2, WithData(s.frames, caller.data.(offNextArgsBegin := SIZE_MAX)) + [callee]), Done)
  }

  /** CALL: the pushed arguments become the callee's. The register for the result is the caller's. */
  function Call(b: Buffer, s: AState, f: FnInfo, out: nat): (AState, Outcome)
    requires GoodBuffer(b) && s.top <= b.size && GoodFn(f) && s.frames != []
  {
    var d := Cur(s).data;
    if out != INVALID_REG && out >= |d.regs| then (s, InvalidOperands) else
      var (t, o) := Create(b, s, f, d.offNextArgs, d.numNextArgs, out);
      if o != Done then (t, o) else
        var at := |s.frames| - 1;
        var e := t.frames[at].data.(offNextArgs := SIZE_MAX, numNextArgs := 0);
        (t.(frames := t.frames[at := t.frames[at].(data := e)]), Done)
  }

  /** The caller's registers after a return. */
  function WithResult(d: FrameData, out: nat, value: Option<Value>): FrameData {
    if out != INVALID_REG && value.Some? && out < |d.regs| then d.(regs := d.regs[out := value.value]) else d
  }

  /** The current frame is gone, and the stack is where it was when the frame was made. */
  function Popped(s: AState): AState
    requires s.frames != []
  {
    AState(Cur(s).prevTop, s.frames[..|s.frames| - 1])
  }

  /** The value that RET with a register returns; none with RETVOID, or when there is no such register. */
  function Returned(f: AFrame, reg: Option<nat>): Option<Value> {
    if reg.Some? && reg.value < |f.data.regs| then Some(f.data.regs[reg.value]) else None
  }

  /** RET with a register, or RETVOID. The register for the result is checked against the registers of the
      function that returns, not of the one it returns to. */
  function Ret(s: AState, reg: Option<nat>): (AState, Outcome)
    requires |s.frames| > 1
    requires Cur(s).data.returnReg != INVALID_REG ==> Cur(s).data.returnReg < |s.frames[|s.frames| - 2].data.regs|
  {
    var f := Cur(s);
    var (out, value) := (f.data.returnReg, Returned(f, reg));
    if out != INVALID_REG && (value.None? || out >= |f.data.regs|) then (s, InvalidOperands) else
      var n := |s.frames| - 2;
      var caller := s.frames[n].(data := WithResult(s.frames[n].data, out, value));
      (Popped(s.(frames := s.frames[n := caller])), Done)
  }

  // ----- Well-formed states and whole runs

  /** Where the stack was when the innermost minor frame was entered, or the call made. */
  function HighBase(f: AFrame): nat
    requires f.minors != []
  {
    if |f.minors| == 1 then f.prevTop else f.minors[|f.minors| - 1].base
  }

  /** Minor frames were entered from the bottom up; local variables are in registers. */
  ghost predicate WfFrame(f: AFrame) {
    && f.minors != [] && f.data.offNextArgs <= SIZE_MAX
    && (forall k :: 1 <= k < |f.minors| ==> f.prevTop <= f.minors[k].base)
    && (forall k, l :: 1 <= k < l < |f.minors| ==> f.minors[k].base <= f.minors[l].base)
    && (forall k, r :: 0 <= k < |f.minors| && r in f.minors[k].locals ==> r < |f.data.regs|)
  }

  /** Frames were made from the bottom up, and each can return its result. */
  ghost predicate Wf(b: Buffer, s: AState) {
    && GoodBuffer(b) && s.top <= b.size && s.frames != []
    && (forall i :: 0 <= i < |s.frames| ==> WfFrame(s.frames[i]))
    && (forall i :: 0 <= i < |s.frames| - 1 ==>
          HighBase(s.frames[i]) <= s.frames[i + 1].prevTop && Returnable(s.frames[i], s.frames[i + 1]))
    && HighBase(Cur(s)) <= s.top
  }

  predicate Returnable(caller: AFrame, callee: AFrame) {
    callee.data.returnReg != INVALID_REG ==> callee.data.returnReg < |caller.data.regs|
  }

  datatype Op = EnterOp | LeaveOp(level: nat) | LocalOp(size: nat, align: nat, reg: nat) | PushOp(reg: nat)
              | CallOp(fn: FnInfo, out: nat) | RetOp(from: Option<nat>) | WriteOp(reg: nat, value: Value)

  /** The function called has proper banks, a local variable a proper size, and the outermost
      frame does not return. */
  predicate Possible(s: AState, op: Op) {
    match op
    case LocalOp(size, align, _) => Fits(size, align)
    case CallOp(fn, _) => GoodFn(fn)
    case RetOp(_) => |s.frames| > 1
    case _ => true
  }

  function Step(b: Buffer, s: AState, op: Op): (AState, Outcome)
    requires Wf(b, s) && Possible(s, op)
  {
    match op
    case EnterOp => Enter(b, s)
    case LeaveOp(level) => Leave(s, level)
    case LocalOp(size, align, reg) =>
      if reg >= |Cur(s).data.regs| then (s, InvalidOperands) else AddLocal(b, s, size, align, reg)
    case PushOp(reg) => if reg >= |Cur(s).data.regs| then (s, InvalidOperands) else PushArg(b, s)
    case CallOp(fn, out) => Call(b, s, fn, out)
    case RetOp(from) => Ret(s, from)
    case WriteOp(reg, value) => if reg >= |Cur(s).data.regs| then (s, InvalidOperands)
        else (WithReg(s, reg, value), Done)
  }

  /** The current function's register holds the value. */
  function WithReg(s: AState, reg: nat, value: Value): AState
    requires s.frames != [] && reg < |Cur(s).data.regs|
  {
    SetCur(s, Cur(s).(data := Cur(s).data.(regs := Cur(s).data.regs[reg := value])))
  }

  lemma {:induction false} LeaveKeepsWf(b: Buffer, s: AState, level: nat)
    requires Wf(b, s)
    ensures Wf(b, Leave(s, level).0) && Leave(s, level).0.top <= s.top
    decreases level
  {
    if level > 0 {
      LeaveOneKeepsWf(b, s);
      if LeaveOne(s).1 == Done {
        LeaveKeepsWf(b, LeaveOne(s).0, level - 1);
      }
    }
  }

  /** Only the current frame has changed, and it is still well-formed. */
  lemma CurrentKeepsWf(b: Buffer, s: AState, t: AState)
    requires Wf(b, s) && t.frames != [] && t.frames == s.frames[|s.frames| - 1 := Cur(t)] && t.top <= b.size
    requires WfFrame(Cur(t)) && HighBase(Cur(t)) <= t.top
    requires Cur(t).prevTop == Cur(s).prevTop && Cur(t).data.returnReg == Cur(s).data.returnReg
    ensures Wf(b, t)
  {
    hide WfFrame, HighBase;
    assert forall i :: 0 <= i < |s.frames| - 1 ==> t.frames[i] == s.frames[i];
  }

  lemma CurrentFacts(b: Buffer, s: AState)
    requires Wf(b, s)
    ensures s.frames != [] && WfFrame(Cur(s)) && HighBase(Cur(s)) <= s.top <= b.size
    ensures Cur(s).prevTop <= HighBase(Cur(s))
  {
  }

  lemma LeaveOneKeepsWf(b: Buffer, s: AState)
    requires Wf(b, s)
    ensures Wf(b, LeaveOne(s).0) && LeaveOne(s).0.top <= s.top
  {
    CurrentFacts(b, s);
    var t := LeaveOne(s).0;
    CurrentKeepsWf(b, s, t) by {
      hide Wf;
    }
    hide *;
  }

  lemma EnterKeepsWf(b: Buffer, s: AState)
    requires Wf(b, s)
    ensures Wf(b, Enter(b, s).0)
  {
    CurrentFacts(b, s);
    var t := Enter(b, s).0;
    CurrentKeepsWf(b, s, t) by {
      hide Wf;
      EnteredLike(Cur(s), s.top);
      hide WfFrame, HighBase;
    }
    hide *;
  }

  lemma EnteredLike(f: AFrame, top: nat)
    requires WfFrame(f) && f.prevTop <= HighBase(f) <= top
    ensures var g := f.(minors := f.minors + [AMinor(top, [])]); WfFrame(g) && HighBase(g) == top
  {
  }

  lemma LocalKeepsWf(b: Buffer, s: AState, size: nat, align: nat, reg: nat)
    requires Wf(b, s) && align > 0 && reg < |Cur(s).data.regs|
    ensures Wf(b, AddLocal(b, s, size, align, reg).0)
  {
    CurrentFacts(b, s);
    var t := AddLocal(b, s, size, align, reg).0;
    if t != s {
      LocalLike(Cur(s), Cur(t), reg);
      CurrentKeepsWf(b, s, t) by {
        hide Wf, WfFrame, HighBase;
      }
    }
    hide *;
  }

  lemma LocalLike(f: AFrame, g: AFrame, reg: nat)
    requires WfFrame(f) && reg < |f.data.regs| == |g.data.regs| && f.prevTop == g.prevTop
    requires g.data == f.data.(regs := g.data.regs)
    requires var m := f.minors[|f.minors| - 1]; g.minors == f.minors[|f.minors| - 1 := m.(locals := [reg] + m.locals)]
    ensures WfFrame(g) && HighBase(f) == HighBase(g)
  {
  }

  /** The data of a frame may change, as long as it has the same registers. */
  lemma DataLike(f: AFrame, data: FrameData)
    requires WfFrame(f) && data.offNextArgs <= SIZE_MAX && |data.regs| == |f.data.regs|
    ensures var g := f.(data := data); WfFrame(g) && HighBase(g) == HighBase(f)
  {
  }

  lemma PushKeepsWf(b: Buffer, s: AState)
    requires Wf(b, s)
    ensures Wf(b, PushArg(b, s).0)
  {
    CurrentFacts(b, s);
    var t := PushArg(b, s).0;
    DataLike(Cur(s), Cur(t).data);
    CurrentKeepsWf(b, s, t) by {
      hide Wf, WfFrame, HighBase;
    }
    hide *;
  }

  /** The caller once its arguments have been handed over, and the frame of the call. */
  function Caller(f: AFrame): AFrame {
    f.(data := f.data.(offNextArgs := SIZE_MAX, offNextArgsBegin := SIZE_MAX, numNextArgs := 0))
  }

  function Callee(s: AState, f: FnInfo, out: nat): AFrame
    requires s.frames != []
  {
    var d := Cur(s).data;
    AFrame(s.top, [AMinor(d.offNextArgsBegin, [])], NewData(f, d.offNextArgs, d.numNextArgs, out))
  }

  /** A call either fails and changes nothing, or pushes exactly one frame. */
  lemma CallEffect(b: Buffer, s: AState, f: FnInfo, out: nat)
    requires Wf(b, s) && GoodFn(f)
    ensures var (t, o) := Call(b, s, f, out);
            && (o != Done ==> t == s)
            && (o == Done ==> s.top <= t.top <= b.size)
            && (o == Done ==> t.frames == s.frames[..|s.frames| - 1] + [Caller(Cur(s)), Callee(s, f, out)])
            && (o == Done && out != INVALID_REG ==> out < |Cur(s).data.regs|)
  {
    hide BanksBump;
  }

  lemma FrameOnTop(b: Buffer, s: AState, t: AState, c: AFrame, e: AFrame)
    requires Wf(b, s) && t.frames == s.frames[..|s.frames| - 1] + [c, e] && t.top <= b.size
    requires WfFrame(c) && HighBase(c) == HighBase(Cur(s)) && c.prevTop == Cur(s).prevTop
    requires c.data.returnReg == Cur(s).data.returnReg && c.data.regs == Cur(s).data.regs
    requires WfFrame(e) && e.prevTop == s.top && HighBase(e) <= t.top && Returnable(c, e)
    ensures Wf(b, t)
  {
    hide WfFrame, HighBase;
    var n := |s.frames|;
    assert forall i :: 0 <= i < n - 1 ==> t.frames[i] == s.frames[i];
    assert t.frames[n - 1] == c && t.frames[n] == e;
  }

  lemma CallKeepsWf(b: Buffer, s: AState, f: FnInfo, out: nat)
    requires Wf(b, s) && GoodFn(f)
    ensures Wf(b, Call(b, s, f, out).0)
  {
    CallEffect(b, s, f, out);
    CurrentFacts(b, s);
    var t := Call(b, s, f, out).0;
    if t != s {
      hide Call, Wf;
      CallerLike(Cur(s));
      CalleeLike(s, f, out);
      hide WfFrame, HighBase, Caller, Callee;
      FrameOnTop(b, s, t, Caller(Cur(s)), Callee(s, f, out));
    }
    hide *;
  }

  lemma CallerLike(f: AFrame)
    requires WfFrame(f)
    ensures WfFrame(Caller(f)) && HighBase(Caller(f)) == HighBase(f) && Caller(f).prevTop == f.prevTop
    ensures Caller(f).data.returnReg == f.data.returnReg && Caller(f).data.regs == f.data.regs
  {
  }

  lemma CalleeLike(s: AState, f: FnInfo, out: nat)
    requires s.frames != []
    ensures var c := Callee(s, f, out);
            WfFrame(c) && HighBase(c) == s.top && c.prevTop == s.top && c.data.returnReg == out
  {
  }

  lemma NewFrameLike(s: AState, f: FnInfo, offArgs: nat, numArgs: nat, out: nat, base: nat)
    ensures var e := AFrame(s.top, [AMinor(base, [])], NewData(f, offArgs, numArgs, out));
            WfFrame(e) && HighBase(e) == s.top && e.data.returnReg == out
  {
  }

  /** A new frame is well-formed on top of a caller that has the result register. */
  lemma CreateKeepsWf(b: Buffer, s: AState, f: FnInfo, offArgs: nat, numArgs: nat, out: nat)
    requires GoodBuffer(b) && s.top <= b.size && GoodFn(f)
    requires s.frames != [] ==> Wf(b, s) && (out != INVALID_REG ==> out < |Cur(s).data.regs|)
    ensures Create(b, s, f, offArgs, numArgs, out).1 == Done ==> Wf(b, Create(b, s, f, offArgs, numArgs, out).0)
  {
    hide BanksBump, NewData;
    var t := Create(b, s, f, offArgs, numArgs, out).0;
    NewFrameLike(s, f, offArgs, numArgs, out, if s.frames == [] then s.top else Cur(s).data.offNextArgsBegin);
    if s.frames != [] && FrameTops(b, s.top, f).Some? {
      var c := Cur(s).(data := Cur(s).data.(offNextArgsBegin := SIZE_MAX));
      var e := AFrame(s.top, [AMinor(Cur(s).data.offNextArgsBegin, [])], NewData(f, offArgs, numArgs, out));
      assert WfFrame(c) && HighBase(c) == HighBase(Cur(s));
      assert t.frames == s.frames[..|s.frames| - 1] + [c, e];
      FrameOnTop(b, s, t, c, e);
    }
  }

  lemma PopKeepsWf(b: Buffer, s: AState)
    requires Wf(b, s) && |s.frames| > 1
    ensures Wf(b, Popped(s)) && Cur(s).prevTop <= s.top
  {
    CurrentFacts(b, s);
    var n := |s.frames| - 2;
    assert WfFrame(s.frames[n]) && HighBase(s.frames[n]) <= s.frames[n + 1].prevTop;
    hide WfFrame, HighBase;
  }

  /** The frame below the current one has other data, with the same registers. */
  lemma CallerKeepsWf(b: Buffer, s: AState, data: FrameData)
    requires Wf(b, s) && |s.frames| > 1 && data.offNextArgs <= SIZE_MAX
    requires var d := s.frames[|s.frames| - 2].data; |data.regs| == |d.regs| && data.returnReg == d.returnReg
    ensures Wf(b, s.(frames := s.frames[|s.frames| - 2 := s.frames[|s.frames| - 2].(data := data)]))
  {
    var n := |s.frames| - 2;
    assert Returnable(s.frames[n], s.frames[n + 1]);
    DataLike(s.frames[n], data);
    hide WfFrame, HighBase;
  }

  lemma RetKeepsWf(b: Buffer, s: AState, reg: Option<nat>)
    requires Wf(b, s) && |s.frames| > 1
    ensures Wf(b, Ret(s, reg).0)
  {
    var (n, t) := (|s.frames| - 2, Ret(s, reg).0);
    assert WfFrame(s.frames[n]) && Returnable(s.frames[n], s.frames[n + 1]);
    if t != s {
      var data := WithResult(s.frames[n].data, Cur(s).data.returnReg, Returned(Cur(s), reg));
      CallerKeepsWf(b, s, data);
      hide Wf, WfFrame, WithResult, Returned;
      PopKeepsWf(b, s.(frames := s.frames[n := s.frames[n].(data := data)]));
    }
  }

  lemma WriteKeepsWf(b: Buffer, s: AState, reg: nat, value: Value)
    requires Wf(b, s) && reg < |Cur(s).data.regs|
    ensures Wf(b, WithReg(s, reg, value))
  {
    CurrentFacts(b, s);
    var t := WithReg(s, reg, value);
    DataLike(Cur(s), Cur(t).data);
    CurrentKeepsWf(b, s, t) by {
      hide Wf, WfFrame, HighBase;
    }
    hide *;
  }

  /** Every instruction keeps the state well-formed, whether it succeeds or not. */
  lemma StepKeepsWf(b: Buffer, s: AState, op: Op)
    requires Wf(b, s) && Possible(s, op)
    ensures Wf(b, Step(b, s, op).0)
  {
    var numRegs := |Cur(s).data.regs|;
    hide Wf;
    match op {
      case EnterOp => EnterKeepsWf(b, s);
      case LeaveOp(level) => LeaveKeepsWf(b, s, level);
      case LocalOp(size, align, reg) =>
        if reg < numRegs {
          LocalKeepsWf(b, s, size, align, reg);
        }
      case PushOp(_) => PushKeepsWf(b, s);
      case CallOp(fn, out) => CallKeepsWf(b, s, fn, out);
      case RetOp(from) => RetKeepsWf(b, s, from);
      case WriteOp(reg, value) =>
        if reg < numRegs {
          WriteKeepsWf(b, s, reg, value);
        }
    }
  }

  // ----- What the instructions do to the frames

  /** t is s with other things in its current frame only, which was made where it was, and has the same arguments
      and result register. */
  ghost predicate OnlyCurrent(s: AState, t: AState) {
    && s.frames != [] && |t.frames| == |s.frames| && t.frames[..|s.frames| - 1] == s.frames[..|s.frames| - 1]
    && var (f, g) := (Cur(s), Cur(t));
       && g.prevTop == f.prevTop && g.data.returnReg == f.data.returnReg
       && g.data.offArgs == f.data.offArgs && g.data.numArgs == f.data.numArgs
  }

  /** ENTER adds a minor frame without local variables, which begins where the stack was. */
  lemma EnterMeans(b: Buffer, s: AState)
    requires Wf(b, s) && Enter(b, s).1 == Done
    ensures var t := Enter(b, s).0;
            && OnlyCurrent(s, t) && Cur(t).data == Cur(s).data && s.top + b.sizes.minor <= t.top <= b.size
            && |Cur(t).minors| == |Cur(s).minors| + 1 && Cur(t).minors[..|Cur(s).minors|] == Cur(s).minors
            && Cur(t).minors[|Cur(s).minors|].base == s.top && Cur(t).minors[|Cur(s).minors|].locals == []
  {
  }

  /** LVAR makes the register refer to a place above everything before, and puts it down as one of a local variable
      of the innermost minor frame. */
  lemma LocalMeans(b: Buffer, s: AState, size: nat, align: nat, reg: nat)
    requires Wf(b, s) && align > 0 && reg < |Cur(s).data.regs| && AddLocal(b, s, size, align, reg).1 == Done
    ensures var t := AddLocal(b, s, size, align, reg).0;
            && OnlyCurrent(s, t) && |Cur(t).minors| == |Cur(s).minors| > 0 && |Cur(t).data.regs| == |Cur(s).data.regs|
            && (forall r :: 0 <= r < |Cur(s).data.regs| && r != reg ==> Cur(t).data.regs[r] == Cur(s).data.regs[r])
            && Cur(t).data.regs[reg].LocalVarRef?
            && s.top + size + 2 <= Cur(t).data.regs[reg].off && Cur(t).data.regs[reg].off + b.sizes.record <= t.top
            && t.top <= b.size
            && (forall k :: 0 <= k < |Cur(s).minors| - 1 ==> Cur(t).minors[k] == Cur(s).minors[k])
            && var (m, n) := (Cur(s).minors[|Cur(s).minors| - 1], Cur(t).minors[|Cur(s).minors| - 1]);
               n.base == m.base && n.locals == [reg] + m.locals
  {
    CurrentFacts(b, s);
    hide Wf, WfFrame, HighBase;
  }

  /** PUSHARG puts one argument more on the stack. */
  lemma PushMeans(b: Buffer, s: AState)
    requires Wf(b, s) && PushArg(b, s).1 == Done
    ensures var (t, d, e) := (PushArg(b, s).0, Cur(s).data, Cur(PushArg(b, s).0).data);
            && OnlyCurrent(s, t) && Cur(t).minors == Cur(s).minors && e.regs == d.regs
            && e.numNextArgs == d.numNextArgs + 1 && e.offNextArgs == t.top
            && e.offNextArgsBegin == (if d.numNextArgs == 0 then s.top else d.offNextArgsBegin)
            && s.top + b.sizes.value <= t.top <= b.size
  {
    CurrentFacts(b, s);
    hide Wf, WfFrame, HighBase;
  }

  /** A call hands over the pushed arguments. The function called begins where the stack was, without anything of its
      own but its registers, each with what it starts with. */
  lemma CallMeans(b: Buffer, s: AState, f: FnInfo, out: nat)
    requires Wf(b, s) && GoodFn(f) && Call(b, s, f, out).1 == Done
    ensures var (t, n) := (Call(b, s, f, out).0, |s.frames| - 1);
            && |t.frames| == n + 2 && t.frames[..n] == s.frames[..n]
            && var (d, e, g) := (Cur(s).data, t.frames[n].data, t.frames[n + 1].data);
               && t.frames[n].prevTop == Cur(s).prevTop && t.frames[n].minors == Cur(s).minors
               && e.regs == d.regs && e.returnReg == d.returnReg && e.numNextArgs == 0
               && e.offArgs == d.offArgs && e.numArgs == d.numArgs
               && t.frames[n + 1].prevTop == s.top && |t.frames[n + 1].minors| == 1
               && t.frames[n + 1].minors[0].locals == []
               && |g.regs| == f.numAnyRegs && (forall r :: 0 <= r < |g.regs| ==> g.regs[r] == f.initial)
               && g.returnReg == out && g.numNextArgs == 0
               && g.numArgs == d.numNextArgs && g.offArgs == (if d.numNextArgs > 0 then d.offNextArgs else SIZE_MAX)
  {
    CallEffect(b, s, f, out);
    hide Call, Wf;
  }

  // ----- What a call, or a minor frame, leaves alone

  /** Inside the minor frame with index k of the n-th calling frame, or deeper. */
  ghost predicate Inside(s: AState, n: nat, k: nat) {
    0 < n <= |s.frames| && k < |s.frames[n - 1].minors|
  }

  /** Outside of that minor frame, t is like s, and it was entered, and its calling frame made,
      at the same point. */
  ghost predicate SameOutside(s: AState, t: AState, n: nat, k: nat)
    requires Inside(s, n, k) && Inside(t, n, k)
  {
    var (f, g) := (s.frames[n - 1], t.frames[n - 1]);
    && s.frames[..n - 1] == t.frames[..n - 1]
    && f.minors[..k] == g.minors[..k] && f.minors[k].base == g.minors[k].base
    && f.prevTop == g.prevTop && f.data.returnReg == g.data.returnReg && |f.data.regs| == |g.data.regs|
    && f.data.offArgs == g.data.offArgs && f.data.numArgs == g.data.numArgs
  }

  lemma CallInside(b: Buffer, s: AState, fn: FnInfo, out: nat, n: nat, k: nat)
    requires Wf(b, s) && GoodFn(fn) && Inside(s, n, k)
    ensures Inside(Call(b, s, fn, out).0, n, k) && SameOutside(s, Call(b, s, fn, out).0, n, k)
  {
    CallEffect(b, s, fn, out);
    hide Call, Wf;
  }

  lemma RetInside(s: AState, reg: Option<nat>, n: nat, k: nat)
    requires |s.frames| > 1 && Returnable(s.frames[|s.frames| - 2], Cur(s)) && Inside(s, n, k)
    requires Inside(Ret(s, reg).0, n, k)
    ensures SameOutside(s, Ret(s, reg).0, n, k)
  {
  }

  lemma LeaveInside(s: AState, level: nat, n: nat, k: nat)
    requires s.frames != [] && Cur(s).minors != [] && Inside(s, n, k) && Inside(Leave(s, level).0, n, k)
    ensures SameOutside(s, Leave(s, level).0, n, k)
  {
    LeaveMeaning(s, level);
    hide Leave;
    EffectInside(s, level, Leave(s, level).0, Leave(s, level).1, n, k);
    hide *;
  }

  lemma EffectInside(s: AState, level: nat, t: AState, o: Outcome, n: nat, k: nat)
    requires s.frames != [] && Cur(s).minors != [] && LeaveEffect(s, level, t, o) && Inside(s, n, k) && Inside(t, n, k)
    ensures SameOutside(s, t, n, k)
  {
    assert |Cur(t).data.regs| == |Cur(s).data.regs|;
    hide RegistersLeft;
    if n < |s.frames| {
      assert t.frames[n - 1] == t.frames[..|s.frames| - 1][n - 1] == s.frames[n - 1];
    }
    assert s.frames[..n - 1] == s.frames[..|s.frames| - 1][..n - 1];
    assert t.frames[..n - 1] == t.frames[..|s.frames| - 1][..n - 1];
  }

  /** g is f with more in its innermost minor frame, or inside it, and with other data. */
  ghost predicate Grown(f: AFrame, g: AFrame) {
    && f.prevTop == g.prevTop && f.data.returnReg == g.data.returnReg && |f.data.regs| == |g.data.regs|
    && f.data.offArgs == g.data.offArgs && f.data.numArgs == g.data.numArgs
    && 0 < |f.minors| <= |g.minors| && f.minors[..|f.minors| - 1] == g.minors[..|f.minors| - 1]
    && f.minors[|f.minors| - 1].base == g.minors[|f.minors| - 1].base
  }

  lemma GrowsCurrent(b: Buffer, s: AState, op: Op)
    requires Wf(b, s) && Possible(s, op) && !op.LeaveOp? && !op.CallOp? && !op.RetOp?
    ensures var t := Step(b, s, op).0;
            && |t.frames| == |s.frames| > 0 && t.frames[..|s.frames| - 1] == s.frames[..|s.frames| - 1]
            && Grown(Cur(s), Cur(t))
  {
    assert WfFrame(Cur(s));
    hide Wf, WfFrame, AlignedBump, LocalTops;
  }

  lemma GrownInside(s: AState, t: AState, n: nat, k: nat)
    requires |t.frames| == |s.frames| > 0 && t.frames[..|s.frames| - 1] == s.frames[..|s.frames| - 1]
    requires Grown(Cur(s), Cur(t)) && Inside(s, n, k)
    ensures Inside(t, n, k) && SameOutside(s, t, n, k)
  {
    if n < |s.frames| {
      assert t.frames[n - 1] == t.frames[..|s.frames| - 1][n - 1] == s.frames[n - 1];
    }
    assert s.frames[..n - 1] == s.frames[..|s.frames| - 1][..n - 1];
    assert t.frames[..n - 1] == t.frames[..|s.frames| - 1][..n - 1];
    var (f, g) := (Cur(s), Cur(t));
    var last := |f.minors| - 1;
    assert n == |s.frames| ==> f.minors[..k] == f.minors[..last][..k] && g.minors[..k] == g.minors[..last][..k];
    assert k < last ==> f.minors[k] == f.minors[..last][k] && g.minors[k] == g.minors[..last][k];
  }

  /** No instruction touches what is outside, as long as the minor frame is not left. */
  lemma StepInside(b: Buffer, s: AState, op: Op, n: nat, k: nat)
    requires Wf(b, s) && Possible(s, op) && Inside(s, n, k) && Inside(Step(b, s, op).0, n, k)
    ensures SameOutside(s, Step(b, s, op).0, n, k)
  {
    match op {
      case LeaveOp(level) => LeaveInside(s, level, n, k);
      case CallOp(fn, out) => CallInside(b, s, fn, out, n, k);
      case RetOp(from) => RetInside(s, from, n, k);
      case _ =>
        GrowsCurrent(b, s, op);
        GrownInside(s, Step(b, s, op).0, n, k);
    }
    hide *;
  }

  /** r is defined by a local variable of one of the minor frames from k on. */
  ghost predicate DefinedFrom(minors: seq<AMinor>, k: nat, r: nat) {
    exists j :: k <= j < |minors| && r in minors[j].locals
  }

  /** What LEAVE n does: exactly the n innermost minor frames are gone, the stack is where it was when the
      last of them was entered, their local variables' registers are invalid, and nothing else has changed.
      It stops at the outermost minor frame of the function, which it never leaves. */
  ghost predicate LeaveEffect(s: AState, level: nat, t: AState, o: Outcome)
    requires s.frames != [] && Cur(s).minors != []
  {
    var f := Cur(s);
    var k := if level < |f.minors| then |f.minors| - level else 1;
    && o == (if level < |f.minors| then Done else FrameBoundaryExceeded)
    && t.top == (if k == |f.minors| then s.top else f.minors[k].base)
    && |t.frames| == |s.frames| && t.frames[..|s.frames| - 1] == s.frames[..|s.frames| - 1]
    && Cur(t) == AFrame(f.prevTop, f.minors[..k], f.data.(regs := Cur(t).data.regs))
    && RegistersLeft(f, k, Cur(t).data.regs)
  }

  ghost predicate RegistersLeft(f: AFrame, k: nat, regs: seq<Value>) {
    && |regs| == |f.data.regs|
    && forall r :: 0 <= r < |regs| ==> regs[r] == if DefinedFrom(f.minors, k, r) then Invalid else f.data.regs[r]
  }

  lemma {:induction false} LeaveMeaning(s: AState, level: nat)
    requires s.frames != [] && Cur(s).minors != []
    ensures LeaveEffect(s, level, Leave(s, level).0, Leave(s, level).1)
    decreases level
  {
    if level > 0 && |Cur(s).minors| > 1 {
      LeaveSteps(s, level);
      var u := LeaveOne(s).0;
      LeaveMeaning(u, level - 1);
      hide *;
      OneMoreLeft(s, level, u, Leave(s, level).0, Leave(s, level).1);
    }
  }

  lemma OneMoreLeft(s: AState, level: nat, u: AState, t: AState, o: Outcome)
    requires s.frames != [] && level > 0 && |Cur(s).minors| > 1 && u == OneLeft(s)
    requires u.frames != [] && Cur(u).minors != [] && LeaveEffect(u, level - 1, t, o)
    ensures LeaveEffect(s, level, t, o)
  {
    var (f, m) := (Cur(s), Cur(s).minors[|Cur(s).minors| - 1]);
    var k := if level < |f.minors| then |f.minors| - level else 1;
    assert Cur(u).minors == f.minors[..|f.minors| - 1];
    assert RegistersLeft(f, k, Cur(t).data.regs) by {
      hide DefinedFrom, Invalidate;
      forall r | 0 <= r < |f.data.regs|
        ensures DefinedFrom(f.minors, k, r) <==> DefinedFrom(Cur(u).minors, k, r) || r in m.locals
      {
        DefinedByLast(f.minors, k, r);
      }
    }
    hide RegistersLeft, Invalidate;
  }

  lemma DefinedByLast(minors: seq<AMinor>, k: nat, r: nat)
    requires k < |minors|
    ensures DefinedFrom(minors, k, r) <==> DefinedFrom(minors[..|minors| - 1], k, r) || r in minors[|minors| - 1].locals
  {
  }

  /** Without its innermost minor frame. */
  ghost function OneLeft(s: AState): AState
    requires s.frames != [] && |Cur(s).minors| > 1
  {
    var (f, m) := (Cur(s), Cur(s).minors[|Cur(s).minors| - 1]);
    var left := AFrame(f.prevTop, f.minors[..|f.minors| - 1], f.data.(regs := Invalidate(f.data.regs, m.locals)));
    SetCur(s, left).(top := m.base)
  }

  lemma LeaveSteps(s: AState, level: nat)
    requires s.frames != [] && level > 0 && |Cur(s).minors| > 1
    ensures var u := LeaveOne(s).0;
            && u == OneLeft(s) && u.frames != [] && Cur(u).minors != [] && Leave(s, level) == Leave(u, level - 1)
  {
  }

  /** ops lead from s to t, all of them succeed, and never leave the given minor frame. */
  ghost predicate RunsInside(b: Buffer, s: AState, ops: seq<Op>, t: AState, n: nat, k: nat)
    requires Wf(b, s)
    decreases |ops|
  {
    && Inside(s, n, k)
    && if ops == [] then s == t else
         && Possible(s, ops[0]) && Step(b, s, ops[0]).1 == Done
         && (StepKeepsWf(b, s, ops[0]); RunsInside(b, Step(b, s, ops[0]).0, ops[1..], t, n, k))
  }

  lemma {:induction false} RunLeavesOutside(b: Buffer, s: AState, ops: seq<Op>, t: AState, n: nat, k: nat)
    requires Wf(b, s) && RunsInside(b, s, ops, t, n, k)
    ensures Wf(b, t) && Inside(t, n, k) && SameOutside(s, t, n, k)
    decreases |ops|
  {
    hide Wf, Step;
    if ops != [] {
      var u := Step(b, s, ops[0]).0;
      StepKeepsWf(b, s, ops[0]);
      RunLeavesOutside(b, u, ops[1..], t, n, k);
      StepInside(b, s, ops[0], n, k);
    }
  }

  /** Whatever runs between a call and its return, the return puts the stack back to where it was
      before the call, and the caller is as before, but for its arguments, which have been used up, and
      for the register of the result: it holds what the returned register held. */
  lemma ReturnRestores(b: Buffer, s: AState, fn: FnInfo, out: nat, ops: seq<Op>, t: AState, reg: Option<nat>)
    requires Wf(b, s) && GoodFn(fn) && Call(b, s, fn, out).1 == Done && Wf(b, Call(b, s, fn, out).0)
    requires RunsInside(b, Call(b, s, fn, out).0, ops, t, |s.frames| + 1, 0)
    requires |t.frames| == |s.frames| + 1 && Returnable(t.frames[|s.frames| - 1], Cur(t)) && Ret(t, reg).1 == Done
    ensures var (u, before) := (Ret(t, reg).0, Caller(Cur(s)));
            && u.top == s.top && |u.frames| == |s.frames| && u.frames[..|s.frames| - 1] == s.frames[..|s.frames| - 1]
            && (out == INVALID_REG ==> Cur(u) == before)
            && (out != INVALID_REG ==>
                  && out < |before.data.regs| && reg.Some? && reg.value < |Cur(t).data.regs|
                  && var regs := before.data.regs[out := Cur(t).data.regs[reg.value]];
                     Cur(u) == before.(data := before.data.(regs := regs)))
  {
    var c := Call(b, s, fn, out).0;
    CallEffect(b, s, fn, out);
    RunLeavesOutside(b, c, ops, t, |s.frames| + 1, 0);
    hide Wf, RunsInside, Call;
    assert c.frames[..|s.frames|] == s.frames[..|s.frames| - 1] + [Caller(Cur(s))];
    assert t.frames[..|s.frames|] == c.frames[..|s.frames|];
    hide SameOutside, Ret;
    ReturnIs(t, s.frames[..|s.frames| - 1], Caller(Cur(s)), reg);
  }

  /** What a successful return leaves, given the frames below the one that returns. */
  lemma ReturnIs(t: AState, pre: seq<AFrame>, caller: AFrame, reg: Option<nat>)
    requires |t.frames| == |pre| + 2 && t.frames[..|pre| + 1] == pre + [caller]
    requires Returnable(t.frames[|pre|], Cur(t)) && Ret(t, reg).1 == Done
    ensures Cur(t).data.returnReg != INVALID_REG ==> Returned(Cur(t), reg).Some?
    ensures Ret(t, reg).0 ==
              AState(Cur(t).prevTop,
                     pre + [caller.(data := WithResult(caller.data, Cur(t).data.returnReg, Returned(Cur(t), reg)))])
  {
    assert t.frames[|pre|] == t.frames[..|pre| + 1][|pre|] == caller;
    hide WithResult, Returned;
  }

  /** Whatever runs inside a minor frame, leaving it puts the stack back to where it was when it was
      entered, and its function's outer minor frames and all outer functions are as they were then. */
  lemma LeaveRestores(b: Buffer, s: AState, ops: seq<Op>, t: AState, level: nat)
    requires Wf(b, s) && Enter(b, s).1 == Done && Wf(b, Enter(b, s).0)
    requires RunsInside(b, Enter(b, s).0, ops, t, |s.frames|, |Cur(s).minors|)
    requires |t.frames| == |s.frames| && level == |Cur(t).minors| - |Cur(s).minors|
    ensures var (u, o) := Leave(t, level);
            && o == Done && u.top == s.top && |u.frames| == |s.frames|
            && u.frames[..|s.frames| - 1] == s.frames[..|s.frames| - 1]
            && Cur(u).minors == Cur(s).minors && Cur(u).prevTop == Cur(s).prevTop
  {
    RunLeavesOutside(b, Enter(b, s).0, ops, t, |s.frames|, |Cur(s).minors|);
    LeaveMeaning(t, level);
    hide Wf, RunsInside, Leave;
    var e := Enter(b, s).0;
    assert Cur(e).minors[..|Cur(s).minors|] == Cur(s).minors;
  }

  /** A function can return the value of a register into its caller's register exactly when both numbers
      are below the number of its own any-typed registers; with fewer, no run of it can end in a return
      that succeeds. */
  lemma ReturnsExactly(b: Buffer, s: AState, fn: FnInfo, out: nat, ops: seq<Op>, t: AState, reg: Option<nat>)
    requires Wf(b, s) && GoodFn(fn) && Call(b, s, fn, out).1 == Done && Wf(b, Call(b, s, fn, out).0)
    requires RunsInside(b, Call(b, s, fn, out).0, ops, t, |s.frames| + 1, 0)
    requires |t.frames| == |s.frames| + 1 && Returnable(t.frames[|s.frames| - 1], Cur(t))
    ensures Ret(t, reg).1 == Done <==>
              out == INVALID_REG || (reg.Some? && reg.value < fn.numAnyRegs && out < fn.numAnyRegs)
  {
    CallEffect(b, s, fn, out);
    RunLeavesOutside(b, Call(b, s, fn, out).0, ops, t, |s.frames| + 1, 0);
    hide Wf, RunsInside, Call;
  }

  const SMALL_BUFFER: Buffer := Buffer(100, 100, Sizes(1, 1, 1, 1, 1, 1, 1, 1))

  /** A function with two registers that is about to call one with a single register. */
  function AboutToCall(): AState {
    var data := FrameData(SIZE_MAX, 0, SIZE_MAX, SIZE_MAX, 0, INVALID_REG, [Zeroed, Zeroed]);
    AState(0, [AFrame(0, [AMinor(0, [])], data)])
  }

  /** The caller has a register 1 and asks for the result there. The callee returns its only register: that
      is refused, while it succeeds, and with a register that the callee has not got it does not, when the
      caller asks for the result in register 0. */
  lemma ReturnRefused()
    ensures Wf(SMALL_BUFFER, AboutToCall()) && 1 < |Cur(AboutToCall()).data.regs|
    ensures var fn := FnInfo([], 1, Zeroed);
            var (t, u) := (Call(SMALL_BUFFER, AboutToCall(), fn, 1), Call(SMALL_BUFFER, AboutToCall(), fn, 0));
            && t.1 == Done && |t.0.frames| == 2 && Ret(t.0, Some(0)).1 == InvalidOperands
            && u.1 == Done && |u.0.frames| == 2 && Ret(u.0, Some(0)).1 == Done && Ret(u.0, Some(1)).1 == InvalidOperands
  {
    var (s, fn) := (AboutToCall(), FnInfo([], 1, Zeroed));
    CallEffect(SMALL_BUFFER, s, fn, 1);
    CallEffect(SMALL_BUFFER, s, fn, 0);
  }

  // ----- Pushed arguments

  /** Only the current function has arguments pushed, and they are still on the stack. */
  ghost predicate ArgumentsAlive(s: AState)
    requires s.frames != []
  {
    && (forall i :: 0 <= i < |s.frames| - 1 ==> s.frames[i].data.numNextArgs == 0)
    && (Cur(s).data.numNextArgs > 0 ==> Cur(s).data.offNextArgs <= s.top)
  }

  /** Only leaving a minor frame that was entered before the arguments were pushed releases them. */
  ghost predicate Releases(s: AState, op: Op)
    requires s.frames != []
  {
    var (d, ms) := (Cur(s).data, Cur(s).minors);
    op.LeaveOp? && 0 < op.level < |ms| && d.numNextArgs > 0 && ms[|ms| - op.level].base < d.offNextArgs
  }

  lemma LeaveKeepsArguments(s: AState, level: nat)
    requires s.frames != [] && Cur(s).minors != [] && ArgumentsAlive(s) && Leave(s, level).1 == Done
    ensures ArgumentsAlive(Leave(s, level).0) <==> !Releases(s, LeaveOp(level))
  {
    LeftTop(s, level);
    hide Leave, Cur;
  }

  /** Where the stack is after a LEAVE, and that the frames keep their arguments. */
  lemma LeftTop(s: AState, level: nat)
    requires s.frames != [] && Cur(s).minors != [] && Leave(s, level).1 == Done
    ensures var (f, t) := (Cur(s), Leave(s, level).0);
            && level < |f.minors| && t.top == (if level == 0 then s.top else f.minors[|f.minors| - level].base)
            && |t.frames| == |s.frames| && (forall i :: 0 <= i < |s.frames| - 1 ==> t.frames[i] == s.frames[i])
            && Cur(t).data.numNextArgs == f.data.numNextArgs && Cur(t).data.offNextArgs == f.data.offNextArgs
  {
    LeaveMeaning(s, level);
    var t := Leave(s, level).0;
    hide Leave, RegistersLeft;
    assert forall i :: 0 <= i < |s.frames| - 1 ==> t.frames[i] == t.frames[..|s.frames| - 1][i];
  }

  lemma CallKeepsArguments(b: Buffer, s: AState, f: FnInfo, out: nat)
    requires Wf(b, s) && GoodFn(f) && ArgumentsAlive(s) && Call(b, s, f, out).1 == Done
    ensures Call(b, s, f, out).0.frames != [] && ArgumentsAlive(Call(b, s, f, out).0)
  {
    CallEffect(b, s, f, out);
    hide Call, Wf;
  }

  /** Pushed arguments stay on the stack up to the call, exactly as long as no LEAVE releases them. */
  lemma ArgumentsStayExactly(b: Buffer, s: AState, op: Op)
    requires Wf(b, s) && Possible(s, op) && ArgumentsAlive(s) && Step(b, s, op).1 == Done
    ensures Step(b, s, op).0.frames != []
    ensures ArgumentsAlive(Step(b, s, op).0) <==> !Releases(s, op)
  {
    CurrentFacts(b, s);
    assert Cur(s).minors != [];
    hide Leave, Call, FrameTops, WfFrame;
    match op {
      case LeaveOp(level) => LeaveKeepsArguments(s, level);
      case CallOp(fn, out) => CallKeepsArguments(b, s, fn, out);
      case _ =>
    }
  }

  /** A LEAVE between pushing an argument and the call: the callee finds its argument inside the area
      that its own frame has been built in. */
  lemma ReleasedArgument(b: Buffer, s: AState, f: FnInfo, out: nat)
    requires Wf(b, s) && Cur(s).data.numNextArgs == 0 && GoodFn(f)
    requires Enter(b, s).1 == Done && Wf(b, Enter(b, s).0) && PushArg(b, Enter(b, s).0).1 == Done
    requires Wf(b, Leave(PushArg(b, Enter(b, s).0).0, 1).0)
    requires Call(b, Leave(PushArg(b, Enter(b, s).0).0, 1).0, f, out).1 == Done
    ensures var t := Call(b, Leave(PushArg(b, Enter(b, s).0).0, 1).0, f, out).0;
            && t.frames != [] && Cur(t).prevTop == s.top && Cur(t).data.numArgs == 1
            && s.top + b.sizes.minor + b.sizes.value <= Cur(t).data.offArgs
  {
    var e := Enter(b, s).0;
    var p := PushArg(b, e).0;
    LeaveMeaning(p, 1);
    CallEffect(b, Leave(p, 1).0, f, out);
    hide Call, Leave;
    assert Cur(p).minors == Cur(s).minors + [AMinor(s.top, [])];
  }

  // ----- Programs

  /** WRITE stands for every instruction that does nothing to the frames but to write a register. */
  datatype Instruction = ENTER | LEAVE(level: nat) | LVAR(t: TypeId, reg: nat) | PUSHARG(reg: nat)
                       | CALL(fn: FnInfo, out: nat) | RET(reg: nat) | RETVOID | WRITE(reg: nat, value: Value)

  function OpOf(i: Instruction): Op {
    match i
    case ENTER => EnterOp
    case LEAVE(level) => LeaveOp(level)
    case LVAR(t, reg) => LocalOp(SizeOf(t), SizeOf(t), reg)
    case PUSHARG(reg) => PushOp(reg)
    case CALL(fn, out) => CallOp(fn, out)
    case RET(reg) => RetOp(Some(reg))
    case RETVOID => RetOp(None)
    case WRITE(reg, value) => WriteOp(reg, value)
  }

  function Ops(code: seq<Instruction>): seq<Op> {
    seq(|code|, i requires 0 <= i < |code| => OpOf(code[i]))
  }

  lemma OpsSnoc(code: seq<Instruction>, n: nat)
    requires n < |code|
    ensures Ops(code[..n + 1]) == Ops(code[..n]) + [OpOf(code[n])]
  {
  }

  /** Executing ops from s ends in t; every instruction but the last succeeds, and o says how
      the last one does. */
  ghost predicate Executes(b: Buffer, s: AState, ops: seq<Op>, t: AState, o: Outcome)
    requires Wf(b, s)
    decreases |ops|
  {
    if ops == [] then t == s && o == Done else
      && Possible(s, ops[0])
      && var (u, q) := Step(b, s, ops[0]);
      if q != Done then |ops| == 1 && t == u && o == q
      else StepKeepsWf(b, s, ops[0]); Executes(b, u, ops[1..], t, o)
  }

  /** The lowest that the stack top gets. */
  ghost function Lowest(b: Buffer, s: AState, ops: seq<Op>): nat
    requires Wf(b, s)
    decreases |ops|
  {
    if ops == [] || !Possible(s, ops[0]) then s.top else
      StepKeepsWf(b, s, ops[0]);
      var rest := Lowest(b, Step(b, s, ops[0]).0, ops[1..]);
      if s.top < rest then s.top else rest
  }

  lemma {:induction false} ExecutesOneMore(b: Buffer, s: AState, ops: seq<Op>, t: AState, op: Op)
    requires Wf(b, s) && Executes(b, s, ops, t, Done) && Wf(b, t) && Possible(t, op)
    ensures var (u, q) := Step(b, t, op);
            && Executes(b, s, ops + [op], u, q)
            && Lowest(b, s, ops + [op]) == if u.top < Lowest(b, s, ops) then u.top else Lowest(b, s, ops)
    decreases |ops|
  {
    if ops == [] {
      assert ([] + [op])[1..] == [];
      StepKeepsWf(b, s, op);
    } else {
      StepKeepsWf(b, s, ops[0]);
      hide Step, Wf;
      ExecutesOneMore(b, Step(b, s, ops[0]).0, ops[1..], t, op);
      assert (ops + [op])[1..] == ops[1..] + [op];
    }
  }

  /** Where the stack was when the minor frame with index k was entered, or the call made. */
  function Floor(f: AFrame, k: nat): nat
    requires k < |f.minors|
  {
    if k == 0 then f.prevTop else f.minors[k].base
  }

  /** Whoever is inside a minor frame is above where it was entered. */
  lemma {:induction false} AboveFloor(b: Buffer, s: AState, n: nat, k: nat)
    requires Wf(b, s) && Inside(s, n, k)
    ensures Floor(s.frames[n - 1], k) <= HighBase(s.frames[n - 1]) <= s.top
    decreases |s.frames| - n
  {
    if n < |s.frames| {
      AboveFloor(b, s, n + 1, 0);
    }
  }

  /** A run inside a minor frame is an execution, and the stack top never gets below where the minor frame
      was entered. */
  lemma {:induction false} RunStaysAbove(b: Buffer, s: AState, ops: seq<Op>, t: AState, n: nat, k: nat)
    requires Wf(b, s) && RunsInside(b, s, ops, t, n, k)
    ensures Executes(b, s, ops, t, Done) && Inside(s, n, k) && Floor(s.frames[n - 1], k) <= Lowest(b, s, ops)
    decreases |ops|
  {
    AboveFloor(b, s, n, k);
    if ops != [] {
      var u := Step(b, s, ops[0]).0;
      StepKeepsWf(b, s, ops[0]);
      RunStaysAbove(b, u, ops[1..], t, n, k);
      StepInside(b, s, ops[0], n, k);
      hide Wf, Step;
      SameFloor(s, u, n, k);
    }
  }

  lemma SameFloor(s: AState, t: AState, n: nat, k: nat)
    requires Inside(s, n, k) && Inside(t, n, k) && SameOutside(s, t, n, k)
    ensures Floor(s.frames[n - 1], k) == Floor(t.frames[n - 1], k)
  {
  }
}
