/** Assembling bytecode with symbolic labels (slake/util/bc_builder.h) and running it
    (the jumps of slake/rt/exec.cc). */
module BcBuilder {

  const UINT32_MAX: nat := 0xFFFF_FFFF
  const UINT64_MAX: nat := 0xFFFF_FFFF_FFFF_FFFF

  datatype Opcode = JMP | BR | RET | Ordinary(code: nat)

  /** Everything about an instruction but its two operand slots is copied as it is. */
  datatype Registers = Registers(flags: nat, out: nat, reg0: nat, reg1: nat)

  datatype Instruction = Instruction(opcode: Opcode, registers: Registers, operand0: nat, operand1: nat)

  datatype Operand = Immediate(value: nat) | Label(id: nat)

  datatype SymbolicInstruction = SymbolicInstruction(opcode: Opcode, registers: Registers, operand0: Operand,
      operand1: Operand)

  type SymbolicProgram = seq<SymbolicInstruction>

  type LabelMap = map<nat, nat>

  /** An instruction's index, and whether its second slot is meant. */
  type SlotId = (nat, bool)

  function Slot(ins: Instruction, second: bool): nat {
    if second then ins.operand1 else ins.operand0
  }

  function Patched(ins: Instruction, second: bool, value: nat): Instruction {
    if second then ins.(operand1 := value) else ins.(operand0 := value)
  }

  // ----- What a symbolic program stands for

  ghost predicate AllKnown(sym: SymbolicProgram, labels: LabelMap) {
    forall i :: 0 <= i < |sym| ==> OperandKnown(sym[i].operand0, labels) && OperandKnown(sym[i].operand1, labels)
  }

  ghost predicate OperandKnown(o: Operand, labels: LabelMap) {
    o.Label? ==> o.id in labels
  }

  function ResolveOperand(o: Operand, labels: LabelMap): nat
    requires o.Label? ==> o.id in labels
  {
    if o.Label? then labels[o.id] else o.value
  }

  function ResolveInstruction(ins: SymbolicInstruction, labels: LabelMap): Instruction
    requires ins.operand0.Label? ==> ins.operand0.id in labels
    requires ins.operand1.Label? ==> ins.operand1.id in labels
  {
    Instruction(ins.opcode, ins.registers, ResolveOperand(ins.operand0, labels), ResolveOperand(ins.operand1, labels))
  }

  ghost function Resolve(sym: SymbolicProgram, labels: LabelMap): seq<Instruction>
    requires AllKnown(sym, labels)
  {
    seq(|sym|, i requires 0 <= i < |sym| =>
      assert OperandKnown(sym[i].operand0, labels) && OperandKnown(sym[i].operand1, labels);
      ResolveInstruction(sym[i], labels))
  }

  /** The program that instructions and the pending replacements stand for. */
  ghost function Symbolic(p: seq<Instruction>, pending: map<SlotId, nat>): SymbolicProgram {
    seq(|p|, i requires 0 <= i < |p| =>
      SymbolicInstruction(p[i].opcode, p[i].registers, SymbolicSlot(p, pending, i, false),
          SymbolicSlot(p, pending, i, true)))
  }

  ghost function SymbolicSlot(p: seq<Instruction>, pending: map<SlotId, nat>, i: nat, second: bool): Operand
    requires i < |p|
  {
    if (i, second) in pending then Label(pending[(i, second)]) else Immediate(Slot(p[i], second))
  }

  function OperandOf(ins: SymbolicInstruction, second: bool): Operand {
    if second then ins.operand1 else ins.operand0
  }

  /** p is sym with every slot resolved but those of todo. */
  ghost predicate PatchedBut(p: seq<Instruction>, sym: SymbolicProgram, labels: LabelMap, todo: map<SlotId, nat>) {
    && |p| == |sym|
    && (forall i :: 0 <= i < |p| ==> p[i].opcode == sym[i].opcode && p[i].registers == sym[i].registers)
    && (forall i, second :: 0 <= i < |p| ==> SlotPatched(p[i], sym[i], labels, todo, i, second))
  }

  ghost predicate SlotPatched(ins: Instruction, sym: SymbolicInstruction, labels: LabelMap, todo: map<SlotId, nat>,
                              i: nat, second: bool) {
    var o := OperandOf(sym, second);
    if (i, second) in todo then o == Label(todo[(i, second)])
    else OperandKnown(o, labels) && Slot(ins, second) == ResolveOperand(o, labels)
  }

  lemma NothingPatched(p: seq<Instruction>, labels: LabelMap, pending: map<SlotId, nat>)
    ensures PatchedBut(p, Symbolic(p, pending), labels, pending)
  {
  }

  lemma OnePatched(p: seq<Instruction>, sym: SymbolicProgram, labels: LabelMap, todo: map<SlotId, nat>, slot: SlotId)
    requires PatchedBut(p, sym, labels, todo) && slot in todo && slot.0 < |p| && todo[slot] in labels
    ensures PatchedBut(p[slot.0 := Patched(p[slot.0], slot.1, labels[todo[slot]])], sym, labels, todo - {slot})
  {
    var q := p[slot.0 := Patched(p[slot.0], slot.1, labels[todo[slot]])];
    forall i, second | 0 <= i < |q|
      ensures SlotPatched(q[i], sym[i], labels, todo - {slot}, i, second)
    {
      assert SlotPatched(p[i], sym[i], labels, todo, i, second);
    }
  }

  lemma AllPatched(p: seq<Instruction>, sym: SymbolicProgram, labels: LabelMap, todo: map<SlotId, nat>)
    requires PatchedBut(p, sym, labels, todo) && todo.Keys == {}
    ensures AllKnown(sym, labels) && p == Resolve(sym, labels)
  {
    forall i | 0 <= i < |p|
      ensures OperandKnown(sym[i].operand0, labels) && OperandKnown(sym[i].operand1, labels)
      ensures p[i] == ResolveInstruction(sym[i], labels)
    {
      assert SlotPatched(p[i], sym[i], labels, todo, i, false) && SlotPatched(p[i], sym[i], labels, todo, i, true);
    }
  }

  /** What resolving does: opcode and registers stay, a number stays, and a label becomes its offset. */
  ghost predicate Resolved(p: seq<Instruction>, sym: SymbolicProgram, labels: LabelMap) {
    && |p| == |sym|
    && forall i :: 0 <= i < |p| ==>
         && p[i].opcode == sym[i].opcode && p[i].registers == sym[i].registers
         && (match sym[i].operand0
             case Immediate(value) => p[i].operand0 == value
             case Label(id) => id in labels && p[i].operand0 == labels[id])
         && (match sym[i].operand1
             case Immediate(value) => p[i].operand1 == value
             case Label(id) => id in labels && p[i].operand1 == labels[id])
  }

  lemma ResolvedIs(sym: SymbolicProgram, labels: LabelMap)
    requires AllKnown(sym, labels)
    ensures Resolved(Resolve(sym, labels), sym, labels)
  {
    forall i | 0 <= i < |sym|
      ensures OperandKnown(sym[i].operand0, labels) && OperandKnown(sym[i].operand1, labels)
    {
    }
  }

  class FnOverloading {
    var instructions: seq<Instruction>

    constructor ()
      ensures instructions == []
    {
      instructions := [];
    }
  }

  class BcBuilder {
    var fn: FnOverloading?
    var labels: LabelMap
    var curLabel: nat
    var pending: map<SlotId, nat>

    constructor ()
      ensures Valid() && fn == null && labels == map[] && curLabel == 0
    {
      fn, labels, curLabel, pending := null, map[], 0, map[];
    }

    ghost predicate Valid()
      reads this, fn
    {
      && (forall id :: id in labels ==> id < curLabel)
      && (fn == null ==> pending == map[])
      && (fn != null ==> forall slot :: slot in pending ==> slot.0 < |fn.instructions|)
    }

    /** The program built so far, with labels where slots are still to be patched. */
    ghost function Program(): SymbolicProgram
      requires fn != null
      reads this, fn
    {
      Symbolic(fn.instructions, pending)
    }

    method AllocLabel() returns (id: nat)
      requires Valid()
      modifies `labels, `curLabel
      ensures Valid() && id !in old(labels) && labels == old(labels)[id := UINT32_MAX]
      ensures id == old(curLabel) && curLabel == id + 1
    {
      labels := labels[curLabel := UINT32_MAX];
      id := curLabel;
      curLabel := curLabel + 1;
    }

    method SetLabelOff(id: nat, off: nat)
      requires Valid() && id in labels
      modifies `labels
      ensures Valid() && labels == old(labels)[id := off]
    {
      labels := labels[id := off];
    }

    /** Appends an instruction; a label operand is left to be patched by the next commit. */
    method EmitIns(opcode: Opcode, registers: Registers, operand0: Operand, operand1: Operand)
      requires Valid() && fn != null
      modifies fn`instructions, `pending
      ensures Valid() && Program() == old(Program()) + [SymbolicInstruction(opcode, registers, operand0, operand1)]
    {
      var ins := Instruction(opcode, registers, 0, 0);
      var at := |fn.instructions|;
      match operand0 {
        case Immediate(value) =>
          ins := ins.(operand0 := value);
        case Label(id) =>
          ins := ins.(operand0 := UINT64_MAX);
          pending := pending[(at, false) := id];
      }
      match operand1 {
        case Immediate(value) =>
          ins := ins.(operand1 := value);
        case Label(id) =>
          ins := ins.(operand1 := UINT64_MAX);
          pending := pending[(at, true) := id];
      }
      fn.instructions := fn.instructions + [ins];
    }

  
    /** Patches every pending slot, in whatever order they come. Fails on a label that was never
        allocated, which the source would look up in vain. */
    method Commit() returns (ok: bool)
      requires Valid()
      modifies `pending, (if fn == null then {} else {fn})`instructions
      ensures ok <==> (fn != null ==> AllKnown(old(Program()), labels))
      ensures ok ==> Valid() && pending == map[]
      ensures ok && fn != null ==> fn.instructions == Resolve(old(Program()), labels)
      ensures ok && fn != null ==> Resolved(fn.instructions, old(Program()), labels)
    {
      if fn == null {
        return true;
      }
      ghost var sym := Program();
      var todo := pending;
      NothingPatched(fn.instructions, labels, pending);
      while todo.Keys != {}
        invariant forall slot :: slot in todo ==> slot.0 < |fn.instructions|
        invariant PatchedBut(fn.instructions, sym, labels, todo)
        decreases |todo.Keys|
      {
        var slot :| slot in todo.Keys;
        if todo[slot] !in labels {
          assert SlotPatched(fn.instructions[slot.0], sym[slot.0], labels, todo, slot.0, slot.1);
          return false;
        }
        OnePatched(fn.instructions, sym, labels, todo, slot);
        fn.instructions := fn.instructions[slot.0 := Patched(fn.instructions[slot.0], slot.1, labels[todo[slot]])];
        assert (todo - {slot}).Keys == todo.Keys - {slot};
        todo := todo - {slot};
      }
      AllPatched(fn.instructions, sym, labels, todo);
      ResolvedIs(sym, labels);
      pending := map[];
      return true;
    }

    /** Finishes the current function and turns to another one; labels stay allocated. */
    method SetFn(next: FnOverloading) returns (ok: bool)
      requires Valid()
      modifies `pending, `fn, (if fn == null then {} else {fn})`instructions
      ensures ok <==> (old(fn) != null ==> AllKnown(old(Program()), labels))
      ensures ok ==> Valid() && fn == next && pending == map[]
      ensures ok && old(fn) != null ==> old(fn).instructions == Resolve(old(Program()), labels)
    {
      ok := Commit();
      if ok {
        fn := next;
      }
    }
  }

  // ----- Running

  /** What ordinary instructions do, how BR reads its condition, and the configurations. */
  datatype Machine<!S> = Machine(exec: (Instruction, S) -> S, test: (Registers, S) -> bool)

  datatype Config<S> = At(pc: nat, s: S) | Returned(ret: Instruction, s: S) | Terminated(s: S) | OffEnd(s: S)

  function AsU32(operand: nat): nat {
    operand % 0x1_0000_0000
  }

  /** A jump past the end terminates the process. */
  function Jump<S>(t: nat, size: nat, s: S): Config<S> {
    if t >= size then Terminated(s) else At(t, s)
  }

  function Step<S>(m: Machine<S>, p: seq<Instruction>, c: Config<S>): Config<S> {
    match c
    case At(pc, s) =>
      if pc >= |p| then OffEnd(s) else
        (match p[pc].opcode
         case JMP => Jump(AsU32(p[pc].operand0), |p|, s)
         case BR => Jump(AsU32(Slot(p[pc], !m.test(p[pc].registers, s))), |p|, s)
         case RET => Returned(p[pc], s)
         case Ordinary(_) => At(pc + 1, m.exec(p[pc], s)))
    case _ => c
  }

  function Run<S>(m: Machine<S>, p: seq<Instruction>, c: Config<S>, n: nat): Config<S> {
    if n == 0 then c else Step(m, p, Run(m, p, c, n - 1))
  }

  /** Where a symbolic jump goes: to the label's offset, or to the number written. */
  function Target(o: Operand, labels: LabelMap): nat
    requires o.Label? ==> o.id in labels
  {
    if o.Label? then labels[o.id] else AsU32(o.value)
  }

  ghost function SymbolicStep<S>(m: Machine<S>, sym: SymbolicProgram, labels: LabelMap, c: Config<S>): Config<S>
    requires AllKnown(sym, labels)
  {
    match c
    case At(pc, s) =>
      if pc >= |sym| then OffEnd(s) else
        assert OperandKnown(sym[pc].operand0, labels) && OperandKnown(sym[pc].operand1, labels);
        (match sym[pc].opcode
         case JMP => Jump(Target(sym[pc].operand0, labels), |sym|, s)
         case BR => Jump(Target(if m.test(sym[pc].registers, s) then sym[pc].operand0 else sym[pc].operand1, labels),
             |sym|, s)
         case RET => Returned(ResolveInstruction(sym[pc], labels), s)
         case Ordinary(_) => At(pc + 1, m.exec(ResolveInstruction(sym[pc], labels), s)))
    case _ => c
  }

  ghost function SymbolicRun<S>(m: Machine<S>, sym: SymbolicProgram, labels: LabelMap, c: Config<S>, n: nat): Config<S>
    requires AllKnown(sym, labels)
  {
    if n == 0 then c else SymbolicStep(m, sym, labels, SymbolicRun(m, sym, labels, c, n - 1))
  }

  /** Offsets are 32-bit numbers, as set_label_off takes them. */
  ghost predicate OffsetsFit(labels: LabelMap) {
    forall id :: id in labels ==> labels[id] <= UINT32_MAX
  }

  /** The committed program runs exactly like the symbolic one. */
  lemma {:induction false} CommittedRunsAlike<S>(m: Machine<S>, sym: SymbolicProgram, labels: LabelMap, c: Config<S>,
                                                 n: nat)
    requires AllKnown(sym, labels) && OffsetsFit(labels)
    ensures Run(m, Resolve(sym, labels), c, n) == SymbolicRun(m, sym, labels, c, n)
  {
    if n > 0 {
      CommittedRunsAlike(m, sym, labels, c, n - 1);
      StepsAlike(m, sym, labels, SymbolicRun(m, sym, labels, c, n - 1));
    }
  }

  lemma StepsAlike<S>(m: Machine<S>, sym: SymbolicProgram, labels: LabelMap, c: Config<S>)
    requires AllKnown(sym, labels) && OffsetsFit(labels)
    ensures Step(m, Resolve(sym, labels), c) == SymbolicStep(m, sym, labels, c)
  {
    if c.At? && c.pc < |sym| {
      assert OperandKnown(sym[c.pc].operand0, labels) && OperandKnown(sym[c.pc].operand1, labels);
    }
  }

  /** With nothing pending, another commit leaves every instruction as it is. */
  lemma SecondCommitIdle(p: seq<Instruction>, labels: LabelMap)
    ensures AllKnown(Symbolic(p, map[]), labels) && Resolve(Symbolic(p, map[]), labels) == p
  {
    var sym := Symbolic(p, map[]);
    assert AllKnown(sym, labels);
    forall i | 0 <= i < |p|
      ensures Resolve(sym, labels)[i] == p[i]
    {
      assert SymbolicSlot(p, map[], i, false) == Immediate(p[i].operand0);
      assert SymbolicSlot(p, map[], i, true) == Immediate(p[i].operand1);
    }
  }

  // ----- Whole assemblies

  datatype Op = AllocOp | SetOffOp(id: nat, off: nat) | EmitOp(ins: SymbolicInstruction)

  ghost function Emitted(ops: seq<Op>): SymbolicProgram {
    if ops == [] then [] else
      var op := ops[|ops| - 1];
      Emitted(ops[..|ops| - 1]) + if op.EmitOp? then [op.ins] else []
  }

  ghost function Allocated(ops: seq<Op>): nat {
    if ops == [] then 0 else Allocated(ops[..|ops| - 1]) + if ops[|ops| - 1].AllocOp? then 1 else 0
  }

  /** Where the labels are in the end: the last offset set counts. */
  ghost function FinalLabels(ops: seq<Op>): LabelMap {
    if ops == [] then map[] else
      var (before, op) := (ops[..|ops| - 1], ops[|ops| - 1]);
      match op
      case AllocOp => FinalLabels(before)[Allocated(before) := UINT32_MAX]
      case SetOffOp(id, off) => FinalLabels(before)[id := off]
      case EmitOp(_) => FinalLabels(before)
  }

  /** Offsets are set for allocated labels only. */
  ghost predicate Legal(ops: seq<Op>) {
    forall k :: 0 <= k < |ops| && ops[k].SetOffOp? ==> ops[k].id in FinalLabels(ops[..k])
  }

  /** Any interleaving of allocating labels, setting their offsets and emitting instructions
      yields the emitted program, resolved with the offsets that the labels have at the commit. */
  method Assemble(ops: seq<Op>) returns (ok: bool, p: seq<Instruction>)
    ensures ok <==> Legal(ops) && AllKnown(Emitted(ops), FinalLabels(ops))
    ensures ok ==> p == Resolve(Emitted(ops), FinalLabels(ops))
    ensures ok ==> Resolved(p, Emitted(ops), FinalLabels(ops))
  {
    var fn := new FnOverloading();
    var builder := new BcBuilder();
    ok := builder.SetFn(fn);
    assert builder.Program() == [];
    for n := 0 to |ops|
      invariant builder.Valid() && builder.fn == fn && fresh(builder) && fresh(fn)
      invariant builder.Program() == Emitted(ops[..n]) && builder.labels == FinalLabels(ops[..n])
      invariant builder.curLabel == Allocated(ops[..n])
      invariant Legal(ops[..n])
    {
      OneMore(ops, n);
      match ops[n] {
        case AllocOp =>
          var id := builder.AllocLabel();
        case SetOffOp(id, off) =>
          if id !in builder.labels {
            return false, [];
          }
          builder.SetLabelOff(id, off);
        case EmitOp(ins) =>
          builder.EmitIns(ins.opcode, ins.registers, ins.operand0, ins.operand1);
      }
    }
    assert ops[..|ops|] == ops;
    ok := builder.Commit();
    p := fn.instructions;
  }

  lemma OneMore(ops: seq<Op>, n: nat)
    requires n < |ops|
    ensures ops[..n + 1][..n] == ops[..n] && ops[..n + 1][n] == ops[n]
    ensures Legal(ops[..n + 1]) <==> Legal(ops[..n]) && (ops[n].SetOffOp? ==> ops[n].id in FinalLabels(ops[..n]))
    ensures Legal(ops) ==> Legal(ops[..n + 1])
  {
    assert forall k :: 0 <= k <= n ==> ops[..n + 1][..k] == ops[..k];
    assert forall k :: 0 <= k <= n ==> ops[..n][..k] == ops[..k];
  }

  /** A label whose offset is never set keeps the one it was allocated with. */
  lemma {:induction false} NeverSet(ops: seq<Op>, id: nat)
    requires forall k :: 0 <= k < |ops| && ops[k].SetOffOp? ==> ops[k].id != id
    ensures id in FinalLabels(ops) ==> FinalLabels(ops)[id] == UINT32_MAX
    decreases |ops|
  {
    if ops != [] {
      NeverSet(ops[..|ops| - 1], id);
    }
  }

  /** A run of the assembled program that comes to a jump to a label whose offset was never set ends the
      process there, if the program is short enough to be addressed. */
  lemma UnsetLabelTerminates<S>(m: Machine<S>, ops: seq<Op>, id: nat, c: Config<S>, n: nat, pc: nat, s: S)
    requires AllKnown(Emitted(ops), FinalLabels(ops)) && |Emitted(ops)| <= UINT32_MAX
    requires forall k :: 0 <= k < |ops| && ops[k].SetOffOp? ==> ops[k].id != id
    requires Run(m, Resolve(Emitted(ops), FinalLabels(ops)), c, n) == At(pc, s)
    requires pc < |Emitted(ops)| && Emitted(ops)[pc].opcode == JMP && Emitted(ops)[pc].operand0 == Label(id)
    ensures Run(m, Resolve(Emitted(ops), FinalLabels(ops)), c, n + 1) == Terminated(s)
  {
    NeverSet(ops, id);
    var p := Resolve(Emitted(ops), FinalLabels(ops));
    assert OperandKnown(Emitted(ops)[pc].operand0, FinalLabels(ops));
    assert p[pc].opcode == JMP && p[pc].operand0 == UINT32_MAX;
    hide FinalLabels, Emitted, Resolve;
  }

  /** A label's offset may be set before or after the instruction that uses it is emitted. */
  lemma {:induction false} OffsetBeforeOrAfterUse(before: seq<Op>, id: nat, off: nat, ins: SymbolicInstruction,
                                                  after: seq<Op>)
    ensures var (early, late) := (before + [SetOffOp(id, off), EmitOp(ins)] + after, before +
              [EmitOp(ins), SetOffOp(id, off)] + after);
            Emitted(early) == Emitted(late) && FinalLabels(early) == FinalLabels(late) && Allocated(early) ==
                Allocated(late)
    decreases |after|
  {
    var (early, late) := (before + [SetOffOp(id, off), EmitOp(ins)] + after, before + [EmitOp(ins), SetOffOp(id, off)] +
        after);
    if after == [] {
      var (e1, l1) := (before + [SetOffOp(id, off)], before + [EmitOp(ins)]);
      assert early[..|early| - 1] == e1 && late[..|late| - 1] == l1;
      assert e1[..|e1| - 1] == before && l1[..|l1| - 1] == before;
    } else {
      var shorter := after[..|after| - 1];
      OffsetBeforeOrAfterUse(before, id, off, ins, shorter);
      assert early[..|early| - 1] == before + [SetOffOp(id, off), EmitOp(ins)] + shorter;
      assert late[..|late| - 1] == before + [EmitOp(ins), SetOffOp(id, off)] + shorter;
    }
  }
}
