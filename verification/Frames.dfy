/** The interpreter's context and the instructions that move its frames (slake/obj/context.cc,
    slake/rt/exec.cc). Each is proved to do to the linked frames on the stack what FrameSpec says. */
module Frames {
  import opened Primitives
  import opened Wrappers
  import opened StackMemory
  import opened FrameSpec
  import opened FrameChains
  import opened FrameVariables

  class Context {
    const buf: Buffer
    var stackTop: nat
    var offCurMajorFrame: nat
    var numMajorFrames: nat
    var memory: Memory
    /** The live cells, and where among them the frames are. */
    ghost var items: seq<Item>
    ghost var frames: seq<FrameIdx>

    constructor (buf: Buffer)
      requires GoodBuffer(buf)
      ensures Valid() && this.buf == buf && stackTop == 0 && frames == []
    {
      this.buf := buf;
      stackTop, offCurMajorFrame, numMajorFrames, memory := 0, SIZE_MAX, 0, map[];
      items, frames := [], [];
    }

    /** The linked frames are where the chains lead, and all cells are below the stack top. */
    ghost predicate Linked()
      reads this
    {
      && GoodBuffer(buf) && Live(buf, memory, items) && Top(items) <= stackTop <= buf.size
      && FramesOk(items, frames, |items|, SIZE_MAX)
      && offCurMajorFrame == LastMajor(items, frames) && numMajorFrames == |frames|
    }

    ghost function Abs(): AState
      reads this
    {
      AState(stackTop, AbsFrames(items, frames))
    }

    ghost predicate Valid()
      reads this
    {
      Linked() && (frames != [] ==> Wf(buf, Abs()))
    }

    method StackAlloc(size: nat) returns (ok: bool)
      modifies `stackTop
      ensures ok <==> old(stackTop) + size <= buf.size
      ensures stackTop == if ok then old(stackTop) + size else old(stackTop)
    {
      var newStackTop := stackTop + size;
      if newStackTop > buf.size {
        return false;
      }
      stackTop := newStackTop;
      return true;
    }

    /** The stack grows by the size and what the address is above a multiple of the alignment, if that fits: less
        than an alignment more than the size, and down to a multiple of it exactly when the size is one. */
    method AlignedStackAlloc(size: nat, align: nat) returns (ok: bool)
      requires align > 0 && stackTop <= buf.size <= buf.address
      modifies `stackTop
      ensures ok <==> old(stackTop) + size + (buf.address - old(stackTop)) % align <= buf.size
      ensures !ok ==> stackTop == old(stackTop)
      ensures ok ==>
                && old(stackTop) + size <= stackTop < old(stackTop) + size + align && stackTop <= buf.size
                && ((buf.address - stackTop) % align == 0 <==> size % align == 0)
      ensures ok && Fits(size, align) ==> AlignedAt(buf, stackTop, align)
      ensures match AlignedBump(buf, old(stackTop), size, align)
              case None => !ok
              case Some(t) => ok && stackTop == t
    {
      var addrDiff := (buf.address - stackTop) % align;
      if stackTop + size + (buf.address - stackTop) % align <= buf.size {
        AlignedExactly(buf.address, stackTop, size, align);
      }
      ok := StackAlloc(size + addrDiff);
    }

    /** Constructs a cell in what was allocated last. */
    method Put(cell: Cell)
      requires Live(buf, memory, items) && Extent(buf.sizes, cell) > 0
      requires Top(items) + Extent(buf.sizes, cell) <= stackTop
      requires AlignedAt(buf, stackTop, Alignment(buf.sizes, cell))
      modifies `memory, `items
      ensures Live(buf, memory, items) && items == old(items) + [Item(stackTop, cell)] && Top(items) == stackTop
    {
      StoreAbove(buf, memory, items, stackTop, cell);
      memory := Store(buf.sizes, memory, stackTop, cell);
      items := items + [Item(stackTop, cell)];
    }

    /** Overwrites a live cell with one of the same kind. */
    method Update(off: nat, cell: Cell, ghost k: nat)
      requires Live(buf, memory, items) && k < |items| && items[k].off == off
      requires Extent(buf.sizes, cell) == Extent(buf.sizes, items[k].cell)
      requires Alignment(buf.sizes, cell) == Alignment(buf.sizes, items[k].cell)
      modifies `memory, `items
      ensures Live(buf, memory, items) && items == old(items)[k := Item(off, cell)]
      ensures Top(items) == old(Top(items))
    {
      StoreOver(buf, memory, items, k, cell);
      memory := Store(buf.sizes, memory, off, cell);
      items := items[k := Item(off, cell)];
    }

    method FetchMajorFrame(off: nat, ghost k: nat) returns (mf: MajorFrame)
      requires Live(buf, memory, items) && k < |items| && items[k].off == off && items[k].cell.MajorCell?
      ensures mf == items[k].cell.major
    {
      mf := memory[off].major;
    }

    method FetchMinorFrame(off: nat, ghost k: nat) returns (mf: MinorFrame)
      requires Live(buf, memory, items) && k < |items| && items[k].off == off && items[k].cell.MinorCell?
      ensures mf == items[k].cell.minor
    {
      mf := memory[off].minor;
    }

    /** What every instruction starts from. */
    lemma Ready() returns (s: AState)
      requires Valid()
      ensures s == Abs() && s == AState(stackTop, AbsFrames(items, frames)) && |s.frames| == |frames|
      ensures Live(buf, memory, items) && Top(items) <= stackTop <= buf.size <= buf.address && GoodBuffer(buf)
      ensures GoodSizes(buf.sizes) && buf.sizes.majorAlign > 0 && buf.sizes.minorAlign > 0 && buf.sizes.recordAlign > 0
      ensures buf.sizes.valueAlign > 0
      ensures FramesOk(items, frames, |items|, SIZE_MAX) && offCurMajorFrame == LastMajor(items, frames)
      ensures numMajorFrames == |frames| && (frames != [] ==> Wf(buf, s))
      ensures frames != [] ==> s.frames != [] && Cur(s).minors != [] && Cur(s).data.offNextArgs <= SIZE_MAX
      ensures frames != [] ==> Cur(s) == s.frames[|s.frames| - 1]
      ensures buf.sizes.major > 0 && buf.sizes.minor > 0 && buf.sizes.record > 0 && buf.sizes.value > 0
      ensures forall m {:trigger MajorCell(m)} :: Extent(buf.sizes, MajorCell(m)) == buf.sizes.major
      ensures forall m {:trigger MinorCell(m)} :: Extent(buf.sizes, MinorCell(m)) == buf.sizes.minor
      ensures forall o, r {:trigger RecordCell(o, r)} :: Extent(buf.sizes, RecordCell(o, r)) == buf.sizes.record
      ensures forall n, c {:trigger Block(n, c)} :: Extent(buf.sizes, Block(n, c)) == n
      ensures Fits(buf.sizes.major, buf.sizes.majorAlign) && Fits(buf.sizes.minor, buf.sizes.minorAlign)
      ensures Fits(buf.sizes.record, buf.sizes.recordAlign) && Fits(buf.sizes.value, buf.sizes.valueAlign)
      ensures forall m {:trigger MajorCell(m)} :: Alignment(buf.sizes, MajorCell(m)) == buf.sizes.majorAlign
      ensures forall m {:trigger MinorCell(m)} :: Alignment(buf.sizes, MinorCell(m)) == buf.sizes.minorAlign
      ensures forall o, r {:trigger RecordCell(o, r)} :: Alignment(buf.sizes, RecordCell(o, r)) == buf.sizes.recordAlign
      ensures forall n, v {:trigger Block(n, Argument(v))} ::
                Alignment(buf.sizes, Block(n, Argument(v))) == buf.sizes.valueAlign
    {
      s := Abs();
    }

    /** Frames and minor frames, records, arguments, register banks and local variables are at multiples of their
        alignments. */
    lemma CellsAligned()
      requires Valid()
      ensures EachAligned(buf, items)
    {
      forall k | 0 <= k < |items|
        ensures CellAligned(buf, items[k].off, items[k].cell)
      {
        AlignedCell(buf, items[k].off, items[k].cell);
      }
    }

    /** What every instruction ends with. */
    lemma Finish(s: AState)
      requires GoodBuffer(buf) && Live(buf, memory, items) && Top(items) <= stackTop <= buf.size
      requires FramesOk(items, frames, |items|, SIZE_MAX) && offCurMajorFrame == LastMajor(items, frames)
      requires numMajorFrames == |frames| && (frames != [] ==> Wf(buf, s))
      requires s == AState(stackTop, AbsFrames(items, frames))
      ensures Valid() && Abs() == s
    {
    }

    /** ENTER */
    method Enter() returns (o: Outcome)
      requires Valid() && frames != []
      modifies this
      ensures Valid() && (Abs(), o) == FrameSpec.Enter(buf, old(Abs())) && BlocksKept(old(items), items)
    {
      hide *;
      SameBlocks(items);
      ghost var s := Ready();
      EnterKeepsWf(buf, s);
      EnterIs(buf, s);
      var prevStackTop := stackTop;
      var ok := AlignedStackAlloc(buf.sizes.minor, buf.sizes.minorAlign);
      if !ok {
        return StackOverflow;
      }
      var mfStackOff := stackTop;
      BumpRoom(buf, prevStackTop, buf.sizes.minor, buf.sizes.minorAlign, mfStackOff);
      ghost var outer, f, g, b := MinorEntered(items, frames, mfStackOff, prevStackTop);
      KeepsBlocks(items, b);
      var cur := FetchMajorFrame(offCurMajorFrame, f.major);
      Put(MinorCell(MinorFrame(cur.offCurMinor, SIZE_MAX, prevStackTop)));
      Update(offCurMajorFrame, MajorCell(cur.(offCurMinor := mfStackOff)), f.major);
      frames := outer + [g];
      ghost var F := AbsFrame(items, f);
      Finish(FrameSpec.Enter(buf, s).0);
      return Done;
    }

    /** The current frame, and where its cell is. */
    method CurrentFrame() returns (mf: MajorFrame, ghost k: nat)
      requires Live(buf, memory, items) && FramesOk(items, frames, |items|, SIZE_MAX) && frames != []
      requires offCurMajorFrame == LastMajor(items, frames)
      ensures k < |items| && items[k].off == offCurMajorFrame && items[k].cell == MajorCell(mf)
      ensures |AbsFrames(items, frames)| == |frames| && AbsFrames(items, frames)[|frames| - 1].data == mf.data
    {
      ghost var outer, f := Current(items, frames, SIZE_MAX);
      k := f.major;
      mf := FetchMajorFrame(offCurMajorFrame, k);
    }

    /** Overwrites the data of the current frame. */
    method SetData(data: FrameData)
      requires Live(buf, memory, items) && FramesOk(items, frames, |items|, SIZE_MAX) && frames != []
      requires offCurMajorFrame == LastMajor(items, frames)
      modifies `memory, `items
      ensures Live(buf, memory, items) && FramesOk(items, frames, |items|, SIZE_MAX) && |items| == old(|items|)
      ensures offCurMajorFrame == LastMajor(items, frames) && Top(items) == old(Top(items))
      ensures |AbsFrames(items, frames)| == |frames| && |old(AbsFrames(items, frames))| == |frames|
      ensures AbsFrames(items, frames) == WithData(old(AbsFrames(items, frames)), data)
      ensures BlocksKept(old(items), items) && OthersKept(old(items), items)
    {
      hide *;
      ghost var outer, f, b := Relinked(items, frames, SIZE_MAX, SIZE_MAX, data);
      AbsLength(items, frames);
      AbsLength(b, frames);
      WithDataLast(AbsFrames(items, outer), AbsFrame(items, f), data);
      SameExtent(buf.sizes, items, f.major);
      KeepsBlocks(items, b);
      KeepsOthers(items, b);
      var mf := FetchMajorFrame(offCurMajorFrame, f.major);
      Update(offCurMajorFrame, MajorCell(mf.(data := data)), f.major);
    }

    /** PUSHARG */
    method PushArg(reg: nat) returns (o: Outcome)
      requires Valid() && frames != []
      modifies this
      ensures Valid() && (Abs(), o) == Step(buf, old(Abs()), PushOp(reg)) && BlocksKept(old(items), items)
      ensures frames == old(frames)
      ensures o == Done ==> reg < |Cur(old(Abs())).data.regs| && |items| == old(|items|) + 1
      ensures o == Done ==>
                items[|items| - 1] == Item(stackTop, Block(buf.sizes.value, Argument(Cur(old(Abs())).data.regs[reg])))
    {
      hide *;
      SameBlocks(items);
      ghost var s := Ready();
      ghost var before := items;
      PushIs(buf, s, reg);
      var cur: MajorFrame;
      ghost var k;
      cur, k := CurrentFrame();
      if reg >= |cur.data.regs| {
        return InvalidOperands;
      }
      var prevStackTop := stackTop;
      var ok := AlignedStackAlloc(buf.sizes.value, buf.sizes.valueAlign);
      if !ok {
        return StackOverflow;
      }
      var newOff := stackTop;
      CellsPushed(items, frames, [Item(newOff, Block(buf.sizes.value, Argument(cur.data.regs[reg])))]);
      Put(Block(buf.sizes.value, Argument(cur.data.regs[reg])));
      KeepsBlocks(before, items);
      ghost var between := items;
      var begin := prevStackTop;
      if cur.data.numNextArgs > 0 {
        if Minus64(newOff, cur.data.offNextArgs) != buf.sizes.value {
          Finish(s.(top := newOff));
          return InvalidOperands;
        }
        begin := cur.data.offNextArgsBegin;
      }
      SetData(cur.data.(offNextArgs := newOff, offNextArgsBegin := begin, numNextArgs := cur.data.numNextArgs + 1));
      LastKept(before, between, items);
      Finish(Step(buf, s, PushOp(reg)).0);
      return Done;
    }

    /** Gives up what was allocated since the stack was at top. */
    method Restore(top: nat, ghost before: seq<Item>)
      requires Live(buf, memory, items) && before <= items
      modifies `stackTop, `items
      ensures stackTop == top && items == before && Live(buf, memory, items)
    {
      hide Live;
      LivePrefix(buf, memory, items, |before|);
      stackTop := top;
      items := items[..|before|];
    }

    /** Allocates the next byte and stores a tag in it. */
    method PutByte(content: Content) returns (ok: bool)
      requires Live(buf, memory, items) && Top(items) <= stackTop <= buf.size <= buf.address
      requires content.Modifier? || content.TypeTag?
      modifies `stackTop, `memory, `items
      ensures match Bump(buf, old(stackTop), 1)
              case None => !ok && stackTop == old(stackTop) && items == old(items) && memory == old(memory)
              case Some(t) => ok && stackTop == t && items == old(items) + [Item(t, Block(1, content))]
      ensures Live(buf, memory, items) && Top(items) <= stackTop
    {
      ok := StackAlloc(1);
      if ok {
        Put(Block(1, content));
      }
    }

    /** Allocates a local variable's data and the two bytes that say its type. */
    method AllocLocal(t: TypeId) returns (ok: bool)
      requires Live(buf, memory, items) && Top(items) <= stackTop <= buf.size <= buf.address
      modifies `stackTop, `memory, `items
      ensures Live(buf, memory, items)
      ensures match AlignedBump(buf, old(stackTop), SizeOf(t), SizeOf(t))
              case None => !ok
              case Some(d) =>
                && ok == (d + 2 <= buf.size)
                && (ok ==> stackTop == d + 2 && items == old(items) + LocalParts(d + 2, t))
      ensures !ok ==> stackTop == old(stackTop) && items == old(items)
      ensures Top(items) <= stackTop <= buf.size
    {
      hide Live, Top, Store;
      var originalStackTop := stackTop;
      ghost var before := items;
      ok := AlignedStackAlloc(SizeOf(t), SizeOf(t));
      if !ok {
        return;
      }
      Put(Block(SizeOf(t), Bank(SizeOf(t))));
      ok := PutByte(Modifier(0));
      if ok {
        ok := PutByte(TypeTag(t));
      }
      if !ok {
        Restore(originalStackTop, before);
      }
    }

    /** Links a record for a register into the innermost minor frame. */
    method AllocAllocaRecord(outputReg: nat) returns (ok: bool)
      requires Live(buf, memory, items) && FramesOk(items, frames, |items|, SIZE_MAX) && frames != []
      requires offCurMajorFrame == LastMajor(items, frames) && Top(items) <= stackTop <= buf.size <= buf.address
      requires GoodSizes(buf.sizes) && buf.sizes.recordAlign > 0
      modifies `stackTop, `memory, `items, `frames
      ensures Live(buf, memory, items) && FramesOk(items, frames, |items|, SIZE_MAX) && |frames| == old(|frames|)
      ensures offCurMajorFrame == LastMajor(items, frames) && Top(items) <= stackTop <= buf.size
      ensures |old(AbsFrames(items, frames))| == |frames| && old(AbsFrames(items, frames))[|frames| - 1].minors != []
      ensures match AlignedBump(buf, old(stackTop), buf.sizes.record, buf.sizes.recordAlign)
              case None => !ok && stackTop == old(stackTop) && items == old(items) && frames == old(frames)
              case Some(t) =>
                ok && stackTop == t && AbsFrames(items, frames) == WithLocal(old(AbsFrames(items, frames)), outputReg)
      ensures BlocksKept(old(items), items)
    {
      hide Live, FramesOk, AbsFrames, LastMajor, LastMinor, Top, Store, WithLocal, BlocksKept;
      SameBlocks(items);
      WithLocalIs(items, frames, outputReg);
      var before := stackTop;
      ok := AlignedStackAlloc(buf.sizes.record, buf.sizes.recordAlign);
      if !ok {
        return;
      }
      ghost var outer, f, k, g, b := RecordAdded(items, frames, stackTop, outputReg);
      KeepsBlocks(items, b);
      var cur := FetchMajorFrame(offCurMajorFrame, f.major);
      var mf := FetchMinorFrame(cur.offCurMinor, k);
      Put(RecordCell(mf.offRecords, outputReg));
      Update(cur.offCurMinor, MinorCell(mf.(offRecords := stackTop)), k);
      frames := outer + [g];
    }

    /** Writes a primitive local variable, given the offset of its type tag. A value of another type
        is refused. */
    method WriteVar(off: nat, value: Value, ghost k: nat, ghost t: TypeId) returns (ok: bool)
      requires Live(buf, memory, items) && FramesOk(items, frames, |items|, SIZE_MAX) && LocalAt(items, k, off, t)
      modifies `memory, `items
      ensures ok <==> value.Primitive? && value.valueType == t
      ensures Live(buf, memory, items) && FramesOk(items, frames, |items|, SIZE_MAX)
      ensures items ==
                if ok then old(items)[k := Item(off - 2, Block(SizeOf(t), Data(Encode(t, value.payload))))]
                else old(items)
      ensures ok ==> forall o: nat, x: Byte :: ByteIs(items, o, x) <==>
                if o <= off - 2 < o + SizeOf(t) then x == Encode(t, value.payload)[off - 2 - o]
                else ByteIs(old(items), o, x)
      ensures LastMajor(items, frames) == old(LastMajor(items, frames)) && Top(items) == old(Top(items))
      ensures AbsFrames(items, frames) == old(AbsFrames(items, frames))
      ensures ok ==> Holds(items, k, off, t, value)
      ensures forall j: nat, p: nat, u, v :: j != k && Holds(old(items), j, p, u, v) ==> Holds(items, j, p, u, v)
    {
      assert items[k + 2] == Item(off, Block(1, TypeTag(t)));
      var typeId := memory[off].content.typeId;
      if value.Primitive? && value.valueType == t {
        WritesOneVariable(items, k, off, t, value);
        BytesWritten(buf, memory, items, k, off, t, Encode(t, value.payload));
      }
      hide ByteIs, Encode, Live, FramesOk, AbsFrames, LastMajor, Top, Store, LocalAt, Holds;
      if !value.Primitive? || value.valueType != typeId {
        return false;
      }
      var bytes := Encode(typeId, value.payload);
      BlockChanged(items, frames, k, Block(SizeOf(t), Data(bytes)));
      Update(off - 2, Block(SizeOf(typeId), Data(bytes)), k);
      return true;
    }

    /** Reads a primitive local variable that has been written: its bytes say the value. */
    method ReadVar(off: nat, ghost k: nat, ghost t: TypeId, ghost held: Value) returns (value: Value)
      requires Live(buf, memory, items) && Holds(items, k, off, t, held)
      ensures value == held
    {
      assert items[k + 2] == Item(off, Block(1, TypeTag(t)));
      RoundTrip(t, held.payload);
      var typeId := memory[off].content.typeId;
      value := Primitive(typeId, Decode(typeId, memory[off - 2].content.bytes));
    }

    /** Allocates a local variable and its record, or nothing. */
    method AllocVar(t: TypeId, outputReg: nat) returns (ok: bool, off: nat)
      requires Live(buf, memory, items) && FramesOk(items, frames, |items|, SIZE_MAX) && frames != []
      requires offCurMajorFrame == LastMajor(items, frames) && Top(items) <= stackTop <= buf.size <= buf.address
      requires GoodSizes(buf.sizes) && buf.sizes.recordAlign > 0 && GoodBuffer(buf)
      modifies `stackTop, `memory, `items, `frames
      ensures Live(buf, memory, items) && FramesOk(items, frames, |items|, SIZE_MAX) && |frames| == old(|frames|)
      ensures offCurMajorFrame == LastMajor(items, frames) && Top(items) <= stackTop <= buf.size
      ensures |old(AbsFrames(items, frames))| == |frames| && old(AbsFrames(items, frames))[|frames| - 1].minors != []
      ensures match LocalTops(buf, old(stackTop), SizeOf(t), SizeOf(t))
              case None => !ok && stackTop == old(stackTop) && items == old(items) && frames == old(frames)
              case Some(p) =>
                && ok && off == p.0 && stackTop == p.1
                && AbsFrames(items, frames) == WithLocal(old(AbsFrames(items, frames)), outputReg)
      ensures BlocksKept(old(items), items) && (ok ==> LocalAt(items, |old(items)|, off, t))
    {
      hide Live, FramesOk, AbsFrames, LastMajor, Top, Store, WithLocal, BlocksKept, LocalAt, LocalParts;
      SameBlocks(items);
      WithLocalIs(items, frames, outputReg);
      var originalStackTop := stackTop;
      ghost var before := items;
      ok := AllocLocal(t);
      off := stackTop;
      if !ok {
        return;
      }
      CellsPushed(before, frames, LocalParts(off, t));
      LocalMade(before, off, t);
      ghost var between := items;
      ok := AllocAllocaRecord(outputReg);
      LocalKept(before, between, items, off, t);
      if !ok {
        Restore(originalStackTop, before);
      }
    }

    /** LVAR for a primitive type: allocates a variable that holds the type's default value, and makes
        the register refer to it. */
    method AddLocalVar(t: TypeId, outputReg: nat) returns (o: Outcome, off: nat)
      requires Valid() && frames != []
      modifies this
      ensures Valid() && (Abs(), o) == Step(buf, old(Abs()), LocalOp(SizeOf(t), SizeOf(t), outputReg))
      ensures BlocksKept(old(items), items)
      ensures o == Done ==> Holds(items, |old(items)|, off, t, Primitive(t, 0))
      ensures o == Done ==> NewTag(buf, old(stackTop), t) == Some(off)
    {
      hide *;
      ghost var s := Ready();
      LocalIs(buf, s, t, outputReg);
      NewTagIs(buf, stackTop, t);
      SameBlocks(items);
      var cur: MajorFrame;
      ghost var at, before := 0, items;
      cur, at := CurrentFrame();
      off := 0;
      if outputReg >= |cur.data.regs| {
        return InvalidOperands, off;
      }
      var ok: bool;
      ok, off := AllocVar(t, outputReg);
      if !ok {
        Finish(s);
        return StackOverflow, off;
      }
      ghost var between := items;
      SetData(cur.data.(regs := cur.data.regs[outputReg := LocalVarRef(off)]));
      LocalKept(before, between, items, off, t);
      ZeroInRange(t);
      LocalWritten(before, items, off, t, Primitive(t, 0));
      ok := WriteVar(off, Primitive(t, 0), |before|, t);
      Finish(Step(buf, s, LocalOp(SizeOf(t), SizeOf(t), outputReg)).0);
      return Done, off;
    }

    method FetchAllocaRecord(off: nat, ghost k: nat) returns (offNext: nat, defReg: nat)
      requires Live(buf, memory, items) && k < |items| && items[k].off == off && items[k].cell.RecordCell?
      ensures items[k].cell == RecordCell(offNext, defReg)
    {
      offNext, defReg := memory[off].offNext, memory[off].defReg;
    }

    /** Invalidates the registers that the chain of records from head names. */
    method InvalidateRecords(head: nat, ghost k: nat, ghost rs: seq<nat>)
      requires Live(buf, memory, items) && FramesOk(items, frames, |items|, SIZE_MAX) && frames != []
      requires offCurMajorFrame == LastMajor(items, frames) && |AbsFrames(items, frames)| == |frames|
      requires RecordsOk(items, rs, head, k, |items|)
      requires forall i :: 0 <= i < |items| ==> items[i].off < SIZE_MAX
      requires forall r :: r in RecordRegs(items, rs) ==> r < |AbsFrames(items, frames)[|frames| - 1].data.regs|
      modifies `memory, `items
      ensures Live(buf, memory, items) && FramesOk(items, frames, |items|, SIZE_MAX)
      ensures OthersKept(old(items), items)
      ensures offCurMajorFrame == LastMajor(items, frames) && Top(items) == old(Top(items))
      ensures var d := old(AbsFrames(items, frames))[|frames| - 1].data;
              AbsFrames(items, frames) == WithData(old(AbsFrames(items, frames)),
                  d.(regs := Invalidate(d.regs, RecordRegs(old(items), rs))))
    {
      hide Live, FramesOk, AbsFrames, LastMajor, Top, OthersKept, RecordsOk, Invalidate, RecordRegs, WithData;
      var off := head;
      ghost var (before, fs, n) := (items, AbsFrames(items, frames), 0);
      ghost var d := fs[|fs| - 1].data;
      NoneInvalid(before, fs, rs);
      assert rs[0..] == rs;
      while off != SIZE_MAX
        invariant n <= |rs| && RecordsOk(items, rs[n..], off, k, |items|)
        invariant Live(buf, memory, items) && FramesOk(items, frames, |items|, SIZE_MAX)
        invariant OthersKept(before, items)
        invariant offCurMajorFrame == LastMajor(items, frames) && Top(items) == old(Top(items))
        invariant |AbsFrames(items, frames)| == |frames|
        invariant AbsFrames(items, frames) == WithData(fs, d.(regs := Invalidate(d.regs, RecordRegs(before, rs[..n]))))
        decreases |rs| - n
      {
        NextRecord(before, items, rs, n, off, k, d.regs);
        var offNext, defReg := FetchAllocaRecord(off, rs[n]);
        var cur: MajorFrame;
        ghost var at;
        cur, at := CurrentFrame();
        DataOf(fs, d.(regs := Invalidate(d.regs, RecordRegs(before, rs[..n]))));
        ghost var between := items;
        SetData(cur.data.(regs := cur.data.regs[defReg := Invalid]));
        RestKept(before, between, items, rs, n + 1, offNext, k);
        off, n := offNext, n + 1;
      }
      AllInvalid(before, items, rs, n, off, k);
    }

    /** Unlinks the innermost minor frame mf and gives up everything from it on. */
    method PopMinorFrame(mf: MinorFrame)
      requires Live(buf, memory, items) && FramesOk(items, frames, |items|, SIZE_MAX) && frames != []
      requires offCurMajorFrame == LastMajor(items, frames) && IsInnermost(items, frames, mf)
      modifies `stackTop, `memory, `items, `frames
      ensures Live(buf, memory, items) && FramesOk(items, frames, |items|, SIZE_MAX) && |frames| == old(|frames|)
      ensures offCurMajorFrame == LastMajor(items, frames) && Top(items) <= stackTop == mf.stackBase
      ensures |old(AbsFrames(items, frames))| == |frames| && old(AbsFrames(items, frames))[|frames| - 1].minors != []
      ensures AbsFrames(items, frames) == WithoutMinor(old(AbsFrames(items, frames)))
      ensures KeptUpTo(old(items), items, stackTop)
    {
      hide Live, FramesOk, AbsFrames, LastMajor, LastMinor, Top, Store, Extent, KeptUpTo;
      ghost var outer, f, k, g, b := MinorLeft(items, frames);
      CutKeeps(buf, memory, items, b, k, mf.stackBase);
      SameExtent(buf.sizes, items, f.major);
      AbsLength(items, frames);
      WithoutMinorLast(AbsFrames(items, outer), AbsFrame(items, f));
      var cur := FetchMajorFrame(offCurMajorFrame, f.major);
      Update(offCurMajorFrame, MajorCell(cur.(offCurMinor := mf.offLast)), f.major);
      LivePrefix(buf, memory, items, k);
      stackTop := mf.stackBase;
      items, frames := b, outer + [g];
    }

    /** Leaves the innermost minor frame. */
    method LeaveMinorFrame() returns (o: Outcome)
      requires Valid() && frames != []
      modifies this
      ensures Valid() && frames != [] && (Abs(), o) == LeaveOne(old(Abs()))
      ensures KeptUpTo(old(items), items, stackTop)
    {
      hide *;
      ghost var s := Ready();
      LeaveOneKeepsWf(buf, s);
      BelowMax(buf, memory, items, stackTop);
      ghost var outer, f, k, rs := Innermost(items, frames);
      LocalsInRange(buf, s);
      LeaveOneIs(s, AbsFrames(items, outer), AbsFrame(items, f));
      var cur := FetchMajorFrame(offCurMajorFrame, f.major);
      var mf := FetchMinorFrame(cur.offCurMinor, k);
      ghost var before := items;
      SameBlocks(items);
      AllKept(items, items, stackTop);
      if mf.offLast == SIZE_MAX {
        return FrameBoundaryExceeded;
      }
      InnermostIs(items, outer, f, k);
      AbsLength(items, frames);
      InvalidateRecords(mf.offRecords, k, rs);
      StillInnermost(before, items, frames, mf);
      ghost var between := items;
      PopMinorFrame(mf);
      OthersToBlocks(before, between, stackTop);
      KeptTrans(before, between, items, stackTop);
      Finish(LeaveOne(s).0);
      return Done;
    }

    /** LEAVE */
    method Leave(level: nat) returns (o: Outcome)
      requires Valid() && frames != []
      modifies this
      ensures Valid() && frames != [] && (Abs(), o) == FrameSpec.Leave(old(Abs()), level)
      ensures KeptUpTo(old(items), items, stackTop)
    {
      hide *;
      ghost var s := Ready();
      SameBlocks(items);
      AllKept(items, items, stackTop);
      for i := 0 to level
        invariant Valid() && frames != [] && Abs().frames != [] && Cur(Abs()).minors != []
        invariant FrameSpec.Leave(s, level) == FrameSpec.Leave(Abs(), level - i)
        invariant KeptUpTo(old(items), items, stackTop)
      {
        ghost var t := Ready();
        ghost var between, top := items, stackTop;
        LeaveUnfolds(t, level - i);
        LeaveOneKeepsWf(buf, t);
        o := LeaveMinorFrame();
        ghost var v := Ready();
        KeptLess(old(items), between, top, stackTop);
        KeptTrans(old(items), between, items, stackTop);
        if o != Done {
          return;
        }
        ghost var u := Ready();
      }
      LeaveNothing(Abs());
      return Done;
    }

    /** Allocates one register bank. */
    method AllocBank(bank: BankInfo) returns (ok: bool, ghost added: seq<Item>)
      requires Live(buf, memory, items) && Top(items) <= stackTop <= buf.size <= buf.address
      requires Fits(bank.size, bank.align) && bank.count > 0
      modifies `stackTop, `memory, `items
      ensures Live(buf, memory, items) && Top(items) <= stackTop <= buf.size && items == old(items) + added
      ensures match AlignedBump(buf, old(stackTop), bank.size * bank.count, bank.align)
              case None => !ok
              case Some(t) => ok && stackTop == t
      ensures ok ==> added == [Item(stackTop, Block(bank.size * bank.count, Bank(bank.align)))]
    {
      hide Live, Top, Store, Extent, AlignedBump, Bump;
      added := [];
      var top := stackTop;
      MultipleFits(bank.size, bank.count, bank.align);
      BlockLike(buf.sizes, bank.size * bank.count, bank.align);
      hide Fits, Alignment;
      ok := AlignedStackAlloc(bank.size * bank.count, bank.align);
      if ok {
        Put(Block(bank.size * bank.count, Bank(bank.align)));
        added := [Item(stackTop, Block(bank.size * bank.count, Bank(bank.align)))];
      }
    }

    /** Allocates the register banks of a function, until the stack overflows. */
    method AllocBanks(f: FnInfo) returns (ok: bool, ghost banks: seq<Item>)
      requires Live(buf, memory, items) && Top(items) <= stackTop <= buf.size <= buf.address && GoodFn(f)
      modifies `stackTop, `memory, `items
      ensures Live(buf, memory, items) && Top(items) <= stackTop <= buf.size && items == old(items) + banks
      ensures match BanksBump(buf, old(stackTop), f, |f.banks|)
              case None => !ok
              case Some(t) => ok && stackTop == t
      ensures ok ==> banks == BankItems(buf, old(stackTop), f, |f.banks|)
    {
      hide Live, Top, Store, Extent, BankBump, AlignedBump, Fits;
      banks := [];
      assert items + banks == items;
      for i := 0 to |f.banks|
        invariant Live(buf, memory, items) && Top(items) <= stackTop <= buf.size && items == old(items) + banks
        invariant BanksBump(buf, old(stackTop), f, i) == Some(stackTop)
        invariant banks == BankItems(buf, old(stackTop), f, i)
      {
        var bank := f.banks[i];
        BankTop(buf, stackTop, bank);
        if bank.count > 0 {
          ghost var one;
          ok, one := AllocBank(bank);
          banks := banks + one;
          if !ok {
            NoMoreBanks(buf, old(stackTop), f, i + 1);
            return;
          }
        }
      }
      ok := true;
    }

    /** Allocates a frame: its cell, its first minor frame, and its register banks; or nothing. */
    method AllocFrame(f: FnInfo, major: MajorFrame, minor: MinorFrame)
      returns (ok: bool, offMajor: nat, offMinor: nat, ghost banks: seq<Item>)
      requires Live(buf, memory, items) && Top(items) <= stackTop <= buf.size <= buf.address && GoodFn(f)
      requires GoodBuffer(buf)
      requires GoodSizes(buf.sizes) && buf.sizes.majorAlign > 0 && buf.sizes.minorAlign > 0
      modifies `stackTop, `memory, `items
      ensures Live(buf, memory, items) && Top(items) <= stackTop <= buf.size
      ensures match FrameTops(buf, old(stackTop), f)
              case None => !ok && stackTop == old(stackTop) && items == old(items)
              case Some(p) => ok && offMajor == p.0 && offMinor == p.1 && stackTop == p.2
      ensures ok ==> items == old(items) + [Item(offMajor, MajorCell(major)), Item(offMinor, MinorCell(minor))] + banks
      ensures ok ==> old(stackTop) < offMajor && BanksBump(buf, offMinor, f, |f.banks|).Some?
      ensures ok ==> banks == BankItems(buf, offMinor, f, |f.banks|)
    {
      hide Live, Top, Store, BanksBump;
      var prevStackTop := stackTop;
      ghost var before := items;
      offMajor, offMinor, banks := 0, 0, [];
      ok := AlignedStackAlloc(buf.sizes.major, buf.sizes.majorAlign);
      if !ok {
        return;
      }
      offMajor := stackTop;
      Put(MajorCell(major));
      ok := AlignedStackAlloc(buf.sizes.minor, buf.sizes.minorAlign);
      if !ok {
        Restore(prevStackTop, before);
        return;
      }
      offMinor := stackTop;
      Put(MinorCell(minor));
      ok, banks := AllocBanks(f);
      if !ok {
        Restore(prevStackTop, before);
      }
    }

    /** Links a frame that has just been allocated to the one that calls it. */
    method LinkCaller(offMajor: nat, offMinor: nat, ghost major: MajorFrame, ghost before: seq<Item>,
                      ghost banks: seq<Item>)
      requires Live(buf, memory, items) && frames != [] && FramesOk(before, frames, |before|, SIZE_MAX)
      requires items == before + NewCells(offMajor, major, offMinor, major.prevStackTop, banks)
      requires offCurMajorFrame == LastMajor(before, frames) == major.offPrev && major.offNext == SIZE_MAX
      requires major.offCurMinor == offMinor
      requires Top(before) <= major.prevStackTop < offMajor && Top(items) <= stackTop
      modifies `memory, `items, `frames, `offCurMajorFrame
      ensures Live(buf, memory, items) && FramesOk(items, frames, |items|, SIZE_MAX)
      ensures |frames| == old(|frames|) + 1
      ensures offCurMajorFrame == LastMajor(items, frames) && Top(items) <= stackTop
      ensures |AbsFrames(before, old(frames))| == |old(frames)|
      ensures var fs := AbsFrames(before, old(frames)); var d := fs[|fs| - 1].data;
              AbsFrames(items, frames) == WithData(fs, d.(offNextArgsBegin := SIZE_MAX))
                                          + [AFrame(major.prevStackTop, [AMinor(d.offNextArgsBegin, [])], major.data)]
      ensures BlocksKept(before, items) && Last(items, banks)
    {
      hide Live, FramesOk, AbsFrames, LastMajor, Top, Store, BlocksKept;
      ghost var n := |before|;
      ghost var c, d, g, b := FrameLinked(before, frames, major, offMajor, offMinor, banks);
      KeepsBlocks(before, b);
      assert items[c] == before[c] && items[n] == Item(offMajor, MajorCell(major)) && items[n + 1].off == offMinor;
      var prev := FetchMajorFrame(offCurMajorFrame, c);
      Update(offCurMajorFrame, MajorCell(prev.(offNext := offMajor, data := prev.data.(offNextArgsBegin := SIZE_MAX))),
          c);
      Update(offMinor, MinorCell(MinorFrame(SIZE_MAX, SIZE_MAX, prev.data.offNextArgsBegin)), n + 1);
      assert items == b;
      LastOf(n + 2, b, banks);
      frames := frames + [g];
      offCurMajorFrame := offMajor;
    }

    /** The outermost frame is linked to nothing. */
    method LinkFirst(offMajor: nat, offMinor: nat, ghost major: MajorFrame, ghost before: seq<Item>,
                     ghost banks: seq<Item>)
      requires Live(buf, memory, items) && frames == []
      requires items == before + NewCells(offMajor, major, offMinor, major.prevStackTop, banks)
      requires offCurMajorFrame == SIZE_MAX == major.offPrev && major.offNext == SIZE_MAX
      requires major.offCurMinor == offMinor
      requires Top(before) <= major.prevStackTop < offMajor
      modifies `frames, `offCurMajorFrame
      ensures BlocksKept(before, items) && Last(items, banks)
      ensures FramesOk(items, frames, |items|, SIZE_MAX) && |frames| == 1
      ensures offCurMajorFrame == LastMajor(items, frames)
      ensures AbsFrames(items, frames) == [AFrame(major.prevStackTop, [AMinor(major.prevStackTop, [])], major.data)]
    {
      hide *;
      ghost var g, b := FirstLinked(before, major, offMajor, offMinor, banks);
      KeepsBlocks(before, b);
      LastOfNew(before, offMajor, major, offMinor, banks);
      frames := [g];
      offCurMajorFrame := offMajor;
    }

    /** Makes the frame of a call. On a stack overflow nothing has changed. */
    method CreateMajorFrame(f: FnInfo, offArgs: nat, numArgs: nat, returnValueOut: nat) returns (o: Outcome)
      requires Valid() && GoodFn(f)
      requires frames != [] && returnValueOut != INVALID_REG ==> returnValueOut < |Cur(Abs()).data.regs|
      modifies this
      ensures Valid() && (Abs(), o) == Create(buf, old(Abs()), f, offArgs, numArgs, returnValueOut)
      ensures BlocksKept(old(items), items) && |frames| == old(|frames|) + (if o == Done then 1 else 0)
      ensures o == Done ==> FrameTops(buf, old(stackTop), f).Some?
      ensures o == Done ==>
                var at := FrameTops(buf, old(stackTop), f).value.1;
                at <= buf.size <= buf.address && BanksBump(buf, at, f, |f.banks|).Some? &&
                Last(items, BankItems(buf, at, f, |f.banks|))
    {
      hide *;
      SameBlocks(items);
      ghost var s := Ready();
      CreateIs(buf, s, f, offArgs, numArgs, returnValueOut);
      BelowMax(buf, memory, items, stackTop);
      HasCurrent(items, frames);
      var prevStackTop := stackTop;
      ghost var before, n := items, |items|;
      var data := NewData(f, offArgs, numArgs, returnValueOut);
      var draft := MajorFrame(offCurMajorFrame, SIZE_MAX, SIZE_MAX, 0, data);
      var ok, offMajor, offMinor;
      ghost var banks;
      ok, offMajor, offMinor, banks := AllocFrame(f, draft, MinorFrame(SIZE_MAX, SIZE_MAX, prevStackTop));
      if !ok {
        Finish(s);
        return StackOverflow;
      }
      var major := draft.(offCurMinor := offMinor, prevStackTop := prevStackTop);
      FrameDrafted(before, items, draft, major, offMajor, offMinor, banks);
      Update(offMajor, MajorCell(major), n);
      if offCurMajorFrame != SIZE_MAX {
        LinkCaller(offMajor, offMinor, major, before, banks);
      } else {
        LinkFirst(offMajor, offMinor, major, before, banks);
      }
      numMajorFrames := numMajorFrames + 1;
      Finish(Create(buf, s, f, offArgs, numArgs, returnValueOut).0);
      return Done;
    }

    /** Leaves the current major frame. Its two assertions hold. */
    method LeaveMajorFrame()
      requires Valid() && frames != []
      modifies this
      ensures Valid() && Abs() == Popped(old(Abs())) && KeptUpTo(old(items), items, stackTop)
      ensures frames == old(frames)[..|old(frames)| - 1] && offCurMajorFrame == LastMajor(items, frames)
    {
      hide *;
      ghost var s := Ready();
      BelowMax(buf, memory, items, stackTop);
      PoppedIs(buf, s);
      ghost var k, c, outer, b := FrameUnlinked(items, frames);
      SameExtent(buf.sizes, items, k);
      var mf := FetchMajorFrame(offCurMajorFrame, k);
      CutKeeps(buf, memory, items, b, k, mf.prevStackTop);
      assert mf.offNext == SIZE_MAX;
      if mf.offPrev != SIZE_MAX {
        SameExtent(buf.sizes, items, c);
        var prev := FetchMajorFrame(mf.offPrev, c);
        Update(mf.offPrev, MajorCell(prev.(offNext := SIZE_MAX)), c);
      }
      offCurMajorFrame := mf.offPrev;
      assert mf.prevStackTop <= stackTop;
      stackTop := mf.prevStackTop;
      numMajorFrames := numMajorFrames - 1;
      LivePrefix(buf, memory, items, k);
      items, frames := b, outer;
      Finish(Popped(s));
    }

    /** Overwrites the data of the frame below the current one. */
    method SetCallerData(data: FrameData)
      requires Live(buf, memory, items) && FramesOk(items, frames, |items|, SIZE_MAX) && |frames| > 1
      requires offCurMajorFrame == LastMajor(items, frames)
      modifies `memory, `items
      ensures Live(buf, memory, items) && FramesOk(items, frames, |items|, SIZE_MAX)
      ensures offCurMajorFrame == LastMajor(items, frames) && Top(items) == old(Top(items))
      ensures |old(AbsFrames(items, frames))| == |frames|
      ensures AbsFrames(items, frames) == WithCallerData(old(AbsFrames(items, frames)), data)
      ensures BlocksKept(old(items), items)
    {
      hide *;
      ghost var c, k, b, pre, caller, cur := CallerChanged(items, frames, data);
      KeepsBlocks(items, b);
      SameExtent(buf.sizes, items, c);
      AbsLength(items, frames);
      WithCallerDataLast(pre, caller, cur, data);
      var mf := FetchMajorFrame(offCurMajorFrame, k);
      var callerFrame := FetchMajorFrame(mf.offPrev, c);
      Update(mf.offPrev, MajorCell(callerFrame.(data := data)), c);
    }

    /** The data of the frame below the current one. */
    method CallerData() returns (data: FrameData)
      requires Live(buf, memory, items) && FramesOk(items, frames, |items|, SIZE_MAX) && |frames| > 1
      requires offCurMajorFrame == LastMajor(items, frames)
      ensures |AbsFrames(items, frames)| == |frames| && data == AbsFrames(items, frames)[|frames| - 2].data
    {
      hide *;
      ghost var c, k := CallerCell(items, frames);
      AbsLength(items, frames);
      var mf := FetchMajorFrame(offCurMajorFrame, k);
      var callerFrame := FetchMajorFrame(mf.offPrev, c);
      data := callerFrame.data;
    }

    /** CALL, MCALL and CTORCALL: makes the callee's frame and hands it the pushed arguments. */
    method Call(f: FnInfo, output: nat) returns (o: Outcome)
      requires Valid() && frames != [] && GoodFn(f)
      modifies this
      ensures Valid() && (Abs(), o) == FrameSpec.Call(buf, old(Abs()), f, output) && BlocksKept(old(items), items)
      ensures |frames| == old(|frames|) + (if o == Done then 1 else 0)
    {
      hide *;
      SameBlocks(items);
      ghost var before := items;
      ghost var s := Ready();
      CallIs(buf, s, f, output);
      CallKeepsWf(buf, s, f, output);
      var cur: MajorFrame;
      ghost var k;
      cur, k := CurrentFrame();
      if output != INVALID_REG && output >= |cur.data.regs| {
        return InvalidOperands;
      }
      o := CreateMajorFrame(f, cur.data.offNextArgs, cur.data.numNextArgs, output);
      if o != Done {
        return;
      }
      ghost var t := Ready();
      HandedOverIs(t);
      ghost var between := items;
      var data := CallerData();
      SetCallerData(data.(offNextArgs := SIZE_MAX, numNextArgs := 0));
      BlocksTrans(before, between, items);
      Finish(FrameSpec.Call(buf, s, f, output).0);
    }

    /** RET with a register, or RETVOID. */
    method Ret(from: Option<nat>) returns (o: Outcome)
      requires Valid() && |frames| > 1
      modifies this
      ensures Valid() && (Abs(), o) == Step(buf, old(Abs()), RetOp(from)) && KeptUpTo(old(items), items, stackTop)
      ensures frames == if o == Done then old(frames)[..|old(frames)| - 1] else old(frames)
      ensures offCurMajorFrame == LastMajor(items, frames)
    {
      hide *;
      ghost var s := Ready();
      RetIs(buf, s, from);
      SameBlocks(items);
      AllKept(items, items, stackTop);
      var cur: MajorFrame;
      ghost var k;
      cur, k := CurrentFrame();
      var out := cur.data.returnReg;
      ghost var value := Returned(s.frames[|s.frames| - 1], from);
      ReceivedIs(buf, s, value);
      ReturnedIs(s.frames[|s.frames| - 1], from);
      if out != INVALID_REG {
        if from.None? || from.value >= |cur.data.regs| {
          return InvalidOperands;
        }
        var returnValue := cur.data.regs[from.value];
        if out >= |cur.data.regs| {
          return InvalidOperands;
        }
        var data := CallerData();
        SetCallerData(data.(regs := data.regs[out := returnValue]));
        Finish(Received(s, value));
      }
      ghost var between := items;
      LeaveMajorFrame();
      SomeKept(old(items), between, items, stackTop);
      return Done;
    }

    /** Writes a register of the current function. */
    method WriteReg(reg: nat, value: Value) returns (o: Outcome)
      requires Valid() && frames != []
      modifies this
      ensures Valid() && (Abs(), o) == Step(buf, old(Abs()), WriteOp(reg, value)) && BlocksKept(old(items), items)
      ensures frames == old(frames)
    {
      hide Linked, Valid, Abs, Live, FramesOk, AbsFrames, LastMajor, Wf, Top, Store, Extent, BlocksKept, OthersKept;
      SameBlocks(items);
      ghost var s := Ready();
      StepKeepsWf(buf, s, WriteOp(reg, value));
      var cur: MajorFrame;
      ghost var k;
      cur, k := CurrentFrame();
      if reg >= |cur.data.regs| {
        return InvalidOperands;
      }
      SetData(cur.data.(regs := cur.data.regs[reg := value]));
      Finish(Step(buf, s, WriteOp(reg, value)).0);
      return Done;
    }

    /** Pushes the given registers' values and calls f with them. */
    method CallWith(args: seq<nat>, f: FnInfo, output: nat) returns (o: Outcome, ghost k: nat)
      requires Valid() && frames != [] && GoodFn(f) && Cur(Abs()).data.numNextArgs == 0
      modifies this
      ensures Valid() && frames != [] && Wf(buf, old(Abs())) && BlocksKept(old(items), items)
      ensures o == Done ==> Executes(buf, old(Abs()), Passing(args, f, output), Abs(), Done)
      ensures o == Done ==> Cur(Abs()).data.numArgs == |args| && forall i :: 0 <= i < |args| ==>
                args[i] < |Cur(old(Abs())).data.regs|
      ensures o == Done ==> old(stackTop) <= Cur(Abs()).prevTop
      ensures o == Done && args != [] ==>
        && Cur(Abs()).data.offArgs <= Cur(Abs()).prevTop
        && ArgsAt(buf.sizes, items, k, Cur(Abs()).data.offArgs, LastFirst(Cur(old(Abs())).data.regs, args))
    {
      hide *;
      ghost var s := Ready();
      ghost var regs := Cur(s).data.regs;
      k := 0;
      NoArgs(buf.sizes, items, k, s, args);
      NothingExecuted(buf, s);
      NothingPushed(args);
      SameBlocks(items);
      for n := 0 to |args|
        invariant Valid() && frames != [] && PassedSoFar(buf.sizes, items, k, Abs(), regs, args[..n])
        invariant Executes(buf, s, Pushes(args[..n]), Abs(), Done) && BlocksKept(old(items), items)
        invariant old(stackTop) <= stackTop
      {
        ghost var t := Ready();
        ghost var before, m := items, memory;
        PassedMeans(buf.sizes, items, k, t, regs, args[..n]);
        OnePushed(buf, s, args, n, t);
        o := PushArg(args[n]);
        BlocksTrans(old(items), before, items);
        if o != Done {
          return;
        }
        ghost var u := Ready();
        k := OneMorePassed(buf, t, m, before, items, k, regs, args, n);
      }
      assert args[..|args|] == args;
      ghost var t := Ready();
      ghost var before := items;
      OffsetBelow(buf, t, memory, items, k, regs, args);
      PassedMeans(buf.sizes, items, k, t, regs, args);
      AllPassed(buf, s, args, t, f, output);
      o := Call(f, output);
      BlocksTrans(old(items), before, items);
      if o == Done {
        ghost var u := Ready();
        CalleeSees(buf, t, before, items, k, regs, args, f, output);
      }
    }

    /** Calls f with the given registers' values and runs code. When that has never left the call, every
        variable that there was before it holds what it held then; and back in f, f finds its arguments
        as they were passed. */
    method CallAndRun(args: seq<nat>, f: FnInfo, output: nat, code: seq<Instruction>)
      returns (o: Outcome, n: nat, ghost c: AState, ghost k: nat)
      requires Valid() && frames != [] && GoodFn(f) && Cur(Abs()).data.numNextArgs == 0
      requires forall i :: 0 <= i < |code| && code[i].CALL? ==> GoodFn(code[i].fn)
      modifies this
      ensures Valid() && frames != [] && Wf(buf, old(Abs())) && Wf(buf, c) && n <= |code|
      ensures o == Done ==> Executes(buf, old(Abs()), Passing(args, f, output), c, Done)
      ensures o == Done ==> Executes(buf, c, Ops(code[..n]), Abs(), Done)
      ensures o == Done && RunsInside(buf, c, Ops(code[..n]), Abs(), |c.frames|, 0) ==>
        forall j: nat, off: nat, t, v :: Holds(old(items), j, off, t, v) ==> Holds(items, j, off, t, v)
      ensures o == Done && RunsInside(buf, c, Ops(code[..n]), Abs(), |c.frames|, 0) && |frames| ==
                |c.frames| && args != [] ==>
        && Cur(Abs()).data.numArgs == |args| && (forall i :: 0 <= i < |args| ==> args[i] < |Cur(old(Abs())).data.regs|)
        && ArgsAt(buf.sizes, items, k, Cur(Abs()).data.offArgs, LastFirst(Cur(old(Abs())).data.regs, args))
    {
      hide *;
      ghost var s := Ready();
      BelowTop(buf, memory, items, stackTop);
      o, k := CallWith(args, f, output);
      n := 0;
      c := Ready();
      if o == Done {
        ghost var before := items;
        n, o := Run(code);
        ghost var u := Ready();
        if o == Done && RunsInside(buf, c, Ops(code[..n]), u, |c.frames|, 0) {
          VariablesStay(buf, s, c, Ops(code[..n]), u, old(items), before, items);
          if |u.frames| == |c.frames| && args != [] {
            ArgumentsStay(buf, c, Ops(code[..n]), u, before, items, k, LastFirst(Cur(s).data.regs, args));
          }
        }
      }
    }

    /** LARG and reading it: the i-th argument of the current function. */
    method ReadArg(i: nat, ghost k: nat, ghost vals: seq<Value>) returns (o: Outcome, value: Value)
      requires Valid() && frames != [] && Cur(Abs()).data.numArgs == |vals|
      requires vals != [] ==> ArgsAt(buf.sizes, items, k, Cur(Abs()).data.offArgs, vals)
      ensures o == Done <==> i < |vals|
      ensures o == Done ==> value == vals[i]
    {
      var cur: MajorFrame;
      ghost var at;
      cur, at := CurrentFrame();
      if i >= cur.data.numArgs {
        return InvalidOperands, Invalid;
      }
      assert items[k - i] == Item(cur.data.offArgs - i * buf.sizes.value, Block(buf.sizes.value, Argument(vals[i])));
      value := memory[cur.data.offArgs - i * buf.sizes.value].content.value;
      o := Done;
    }

    /** One instruction. Every plain block that the stack still holds afterwards, a variable's or an
        argument's, is as it was. */
    method Execute(i: Instruction) returns (o: Outcome)
      requires Valid() && frames != [] && Possible(Abs(), OpOf(i))
      modifies this
      ensures Valid() && frames != [] && (Abs(), o) == Step(buf, old(Abs()), OpOf(i))
      ensures KeptUpTo(old(items), items, stackTop) && EachAligned(buf, items)
    {
      hide *;
      ghost var s := Ready();
      StepIs(buf, s, i);
      match i {
        case ENTER =>
          o := Enter();
        case LEAVE(level) =>
          o := Leave(level);
        case LVAR(t, reg) =>
          var off;
          o, off := AddLocalVar(t, reg);
        case PUSHARG(reg) =>
          o := PushArg(reg);
        case CALL(f, out) =>
          o := Call(f, out);
        case RET(reg) =>
          o := Ret(Some(reg));
        case RETVOID =>
          o := Ret(None);
        case WRITE(reg, value) =>
          o := WriteReg(reg, value);
      }
      if !i.LEAVE? && !i.RET? && !i.RETVOID? {
        AllKept(old(items), items, stackTop);
      }
      ghost var u := Ready();
      AbsLength(items, frames);
      CellsAligned();
    }

    /** Runs code up to the first instruction that fails, or a return of the outermost frame. Every plain
        block that the stack holds all the while is in the end as it was. */
    method Run(code: seq<Instruction>) returns (n: nat, o: Outcome)
      requires Valid() && frames != [] && forall i :: 0 <= i < |code| && code[i].CALL? ==> GoodFn(code[i].fn)
      modifies this
      ensures Valid() && frames != [] && n <= |code| && Wf(buf, old(Abs()))
      ensures Executes(buf, old(Abs()), Ops(code[..n]), Abs(), o)
      ensures n < |code| && o == Done ==> (code[n].RET? || code[n].RETVOID?) && numMajorFrames == 1
      ensures KeptUpTo(old(items), items, Lowest(buf, old(Abs()), Ops(code[..n]))) && EachAligned(buf, items)
    {
      hide *;
      ghost var s := Ready();
      CellsAligned();
      NothingExecuted(buf, s);
      n, o := 0, Done;
      NoOps(code[..0]);
      SameBlocks(items);
      AllKept(items, items, stackTop);
      while n < |code|
        invariant n <= |code| && o == Done && Valid() && frames != []
        invariant Wf(buf, s) && Executes(buf, s, Ops(code[..n]), Abs(), Done)
        invariant KeptUpTo(old(items), items, Lowest(buf, s, Ops(code[..n]))) && EachAligned(buf, items)
        decreases |code| - n
      {
        ghost var t := Ready();
        if (code[n].RET? || code[n].RETVOID?) && numMajorFrames == 1 {
          return;
        }
        CanExecute(t, code[n]);
        OpsSnoc(code, n);
        ghost var (between, low) := (items, Lowest(buf, s, Ops(code[..n])));
        ExecutesOneMore(buf, s, Ops(code[..n]), t, OpOf(code[n]));
        o := Execute(code[n]);
        ghost var u := Ready();
        CellsAligned();
        n := n + 1;
        ghost var next := Lowest(buf, s, Ops(code[..n]));
        KeptLess(old(items), between, low, next);
        KeptLess(between, items, stackTop, next);
        KeptTrans(old(items), between, items, next);
        if o != Done {
          return;
        }
      }
    }

    /** STORE: writes the variable that the register to refers to. */
    method StoreVar(to: nat, from: nat, ghost v: VState) returns (o: Outcome, ghost w: VState)
      requires Valid() && frames != [] && v.frames == Abs() && Tied(items, v.vars) && v.frames.frames != []
      requires Defined(v, STORE(to, from))
      modifies this
      ensures Valid() && frames != [] && Wf(buf, v.frames) && (w, o) == VStep(buf, v, STORE(to, from))
      ensures w.frames == Abs() && Tied(items, w.vars)
    {
      hide *;
      ghost var s := Ready();
      w := v;
      StoreIs(buf, v, to, from);
      var cur: MajorFrame;
      ghost var at;
      cur, at := CurrentFrame();
      if to >= |cur.data.regs| || from >= |cur.data.regs| {
        return InvalidOperands, w;
      }
      if !cur.data.regs[to].LocalVarRef? {
        return InvalidOperands, w;
      }
      var off := cur.data.regs[to].off;
      ghost var before := items;
      ghost var k := Where(items, v.vars, off);
      var ok := WriteVar(off, cur.data.regs[from], k, v.vars[off].varType);
      Finish(s);
      if !ok {
        return InvalidOperands, w;
      }
      w := v.(vars := v.vars[off := Variable(v.vars[off].varType, cur.data.regs[from])]);
      TiedAfterWrite(before, items, v.vars, k, off, cur.data.regs[from]);
      return Done, w;
    }

    /** LVALUE: reads the variable that the register from refers to. */
    method LoadVar(out: nat, from: nat, ghost v: VState) returns (o: Outcome, ghost w: VState)
      requires Valid() && frames != [] && v.frames == Abs() && Tied(items, v.vars) && v.frames.frames != []
      requires Defined(v, LVALUE(out, from))
      modifies this
      ensures Valid() && frames != [] && Wf(buf, v.frames) && (w, o) == VStep(buf, v, LVALUE(out, from))
      ensures w.frames == Abs() && Tied(items, w.vars)
    {
      hide *;
      ghost var s := Ready();
      w := v;
      LoadIs(buf, v, out, from);
      var cur: MajorFrame;
      ghost var at;
      cur, at := CurrentFrame();
      if out >= |cur.data.regs| || from >= |cur.data.regs| {
        return InvalidOperands, w;
      }
      if !cur.data.regs[from].LocalVarRef? {
        return InvalidOperands, w;
      }
      var off := cur.data.regs[from].off;
      ghost var before := items;
      ghost var k := Where(items, v.vars, off);
      var value := ReadVar(off, k, v.vars[off].varType, v.vars[off].value);
      o := WriteReg(out, value);
      w := v.(frames := Abs());
      TiedAfter(before, items, v.vars);
    }

    /** One instruction, of whatever kind. */
    method ExecuteVar(i: VInstruction, ghost v: VState) returns (o: Outcome, ghost w: VState)
      requires Valid() && frames != [] && v.frames == Abs() && Tied(items, v.vars) && v.frames.frames != []
      requires Defined(v, i)
      modifies this
      ensures Valid() && frames != [] && Wf(buf, v.frames) && (w, o) == VStep(buf, v, i)
      ensures w.frames == Abs() && Tied(items, w.vars)
    {
      hide *;
      ghost var s := Ready();
      ghost var before := items;
      match i {
        case STORE(to, from) =>
          o, w := StoreVar(to, from, v);
        case LVALUE(out, from) =>
          o, w := LoadVar(out, from, v);
        case Plain(p) =>
          PlainIs(buf, v, p);
          match p {
            case LVAR(t, reg) =>
              var off;
              StepIs(buf, s, p);
              o, off := AddLocalVar(t, reg);
              ghost var u := Ready();
              AbsLength(items, frames);
              w := VStep(buf, v, i).0;
              TiedAfterLocal(buf, v, before, items, t, reg, off, o);
            case _ =>
              o := Execute(p);
              ghost var u := Ready();
              w := VStep(buf, v, i).0;
              TiedBelow(buf, v, before, items, p);
          }
      }
    }

    /** Runs safe code up to the first instruction that fails, or a return of the outermost frame. The
        variables on the stack hold what FrameVariables says, all the way. */
    method RunVars(code: seq<VInstruction>, ghost v: VState) returns (n: nat, o: Outcome, ghost w: VState)
      requires Valid() && frames != [] && v.frames == Abs() && Tied(items, v.vars) && Wf(buf, v.frames)
      requires Safe(buf, v, code)
      modifies this
      ensures Valid() && frames != [] && n <= |code| && Wf(buf, v.frames)
      ensures VExecutes(buf, v, code[..n], w, o) && w.frames == Abs() && Tied(items, w.vars) && EachAligned(buf, items)
      ensures n < |code| && o == Done ==> Ends(w, code[n])
    {
      hide *;
      n, o, w := 0, Done, v;
      assert code[0..] == code;
      NothingRun(buf, v, code);
      CellsAligned();
      while n < |code|
        invariant n <= |code| && o == Done && Valid() && frames != []
        invariant w.frames == Abs() && Tied(items, w.vars) && Wf(buf, w.frames) && EachAligned(buf, items)
        invariant Safe(buf, w, code[n..]) && VExecutes(buf, v, code[..n], w, Done)
        decreases |code| - n
      {
        ghost var t := Ready();
        EndsIs(w, code[n]);
        if code[n].Plain? && (code[n].i.RET? || code[n].i.RETVOID?) && numMajorFrames == 1 {
          return;
        }
        SafeNext(buf, w, code, n);
        VExecutesOneMore(buf, v, code[..n], w, code[n]);
        assert code[..n + 1] == code[..n] + [code[n]];
        o, w := ExecuteVar(code[n], w);
        ghost var u := Ready();
        CellsAligned();
        n := n + 1;
        if o != Done {
          return;
        }
      }
    }
  }

  /** Every variable is on the stack, and holds its value there. */
  ghost predicate Tied(items: seq<Item>, vars: Variables) {
    forall off :: off in vars ==> exists k: nat :: Holds(items, k, off, vars[off].varType, vars[off].value)
  }

  lemma Where(items: seq<Item>, vars: Variables, off: nat) returns (k: nat)
    requires Tied(items, vars) && off in vars
    ensures Holds(items, k, off, vars[off].varType, vars[off].value) && LocalAt(items, k, off, vars[off].varType)
  {
    k :| Holds(items, k, off, vars[off].varType, vars[off].value);
  }

  lemma StoreIs(b: Buffer, v: VState, to: nat, from: nat)
    requires Wf(b, v.frames) && v.frames.frames != [] && Defined(v, STORE(to, from))
    ensures var (r, regs) := (VStep(b, v, STORE(to, from)), v.frames.frames[|v.frames.frames| - 1].data.regs);
            && (to >= |regs| || from >= |regs| || !regs[to].LocalVarRef? ==> r == (v, InvalidOperands))
            && (to < |regs| && from < |regs| && regs[to].LocalVarRef? ==>
                  var off := regs[to].off;
                  && off in v.vars
                  && var x := Variable(v.vars[off].varType, regs[from]);
                     r == if regs[from].Primitive? && regs[from].valueType == x.varType then
                            (v.(vars := v.vars[off := x]), Done)
                          else (v, InvalidOperands))
  {
    hide Wf;
  }

  lemma LoadIs(b: Buffer, v: VState, out: nat, from: nat)
    requires Wf(b, v.frames) && v.frames.frames != [] && Defined(v, LVALUE(out, from))
    ensures var (r, regs) := (VStep(b, v, LVALUE(out, from)), v.frames.frames[|v.frames.frames| - 1].data.regs);
            && (out >= |regs| || from >= |regs| || !regs[from].LocalVarRef? ==> r == (v, InvalidOperands))
            && (out < |regs| && from < |regs| && regs[from].LocalVarRef? ==>
                  var off := regs[from].off;
                  && off in v.vars
                  && var (s, o) := Step(b, v.frames, WriteOp(out, v.vars[off].value)); r == (v.(frames := s), o))
  {
    hide Wf;
  }

  /** What FrameVariables asks of a plain instruction, and what it says of the frames. */
  lemma PlainIs(b: Buffer, v: VState, p: Instruction)
    requires Wf(b, v.frames) && v.frames.frames != [] && Defined(v, Plain(p))
    ensures Possible(v.frames, OpOf(p))
    ensures var (r, t) := (VStep(b, v, Plain(p)), Step(b, v.frames, OpOf(p))); r.0.frames == t.0 && r.1 == t.1
    ensures p.LVAR? ==> OpOf(p) == LocalOp(SizeOf(p.t), SizeOf(p.t), p.reg)
  {
    hide Wf, Step, Made;
  }

  lemma TiedAfter(a: seq<Item>, b: seq<Item>, vars: Variables)
    requires Tied(a, vars) && BlocksKept(a, b)
    ensures Tied(b, vars)
  {
    hide Holds;
    forall off | off in vars
      ensures exists k: nat :: Holds(b, k, off, vars[off].varType, vars[off].value)
    {
      var k: nat :| Holds(a, k, off, vars[off].varType, vars[off].value);
      AllKept(a, b, off);
      HoldsStill(a, b, off, k, off, vars[off].varType, vars[off].value);
    }
  }

  lemma TiedAfterWrite(a: seq<Item>, b: seq<Item>, vars: Variables, k: nat, off: nat, value: Value)
    requires Tied(a, vars) && off in vars && Holds(b, k, off, vars[off].varType, value)
    requires Holds(a, k, off, vars[off].varType, vars[off].value)
    requires forall j: nat, p: nat, u, x :: j != k && Holds(a, j, p, u, x) ==> Holds(b, j, p, u, x)
    ensures Tied(b, vars[off := Variable(vars[off].varType, value)])
  {
    forall p | p in vars && p != off
      ensures exists j: nat :: Holds(b, j, p, vars[p].varType, vars[p].value)
    {
      var j: nat :| Holds(a, j, p, vars[p].varType, vars[p].value);
      assert a[j].off == p - 2 && a[k].off == off - 2;
      assert Holds(b, j, p, vars[p].varType, vars[p].value);
    }
  }

  lemma TiedBelow(b: Buffer, v: VState, before: seq<Item>, after: seq<Item>, p: Instruction)
    requires Wf(b, v.frames) && Possible(v.frames, OpOf(p)) && !p.LVAR? && Tied(before, v.vars)
    requires KeptUpTo(before, after, Step(b, v.frames, OpOf(p)).0.top)
    ensures v.frames.frames != [] && Defined(v, Plain(p)) && Tied(after, VStep(b, v, Plain(p)).0.vars)
  {
    CurrentFacts(b, v.frames);
    hide Wf, Step, Holds;
    var top := Step(b, v.frames, OpOf(p)).0.top;
    forall off | off in v.vars && off <= top
      ensures exists k: nat :: Holds(after, k, off, v.vars[off].varType, v.vars[off].value)
    {
      var k: nat :| Holds(before, k, off, v.vars[off].varType, v.vars[off].value);
      HoldsStill(before, after, top, k, off, v.vars[off].varType, v.vars[off].value);
    }
  }

  lemma TiedAfterLocal(b: Buffer, v: VState, before: seq<Item>, after: seq<Item>, t: TypeId, reg: nat, off: nat,
                       o: Outcome)
    requires Wf(b, v.frames) && Possible(v.frames, OpOf(LVAR(t, reg))) && Tied(before, v.vars)
    requires BlocksKept(before, after) && o == Step(b, v.frames, OpOf(LVAR(t, reg))).1
    requires o == Done ==>
               Holds(after, |before|, off, t, Primitive(t, 0)) && NewTag(b, v.frames.top, t) == Some(off)
    ensures v.frames.frames != [] && Defined(v, Plain(LVAR(t, reg)))
    ensures Tied(after, VStep(b, v, Plain(LVAR(t, reg))).0.vars)
  {
    CurrentFacts(b, v.frames);
    MadeAbove(b, v.frames, LVAR(t, reg));
    TiedAfter(before, after, v.vars);
    hide Wf, Step, Holds, Possible;
    var (made, vars) := (Made(b, v.frames, LVAR(t, reg)), VStep(b, v, Plain(LVAR(t, reg))).0.vars);
    MadeAt(b, v.frames, t, reg);
    forall p | p in vars
      ensures exists k: nat :: Holds(after, k, p, vars[p].varType, vars[p].value)
    {
      if p in made {
        assert made[p] == Variable(t, Primitive(t, 0));
        assert Holds(after, |before|, p, t, Primitive(t, 0));
      }
    }
  }

  lemma MadeAt(b: Buffer, s: AState, t: TypeId, reg: nat)
    requires Wf(b, s) && Possible(s, OpOf(LVAR(t, reg)))
    ensures forall p :: p in Made(b, s, LVAR(t, reg)) ==>
              Step(b, s, OpOf(LVAR(t, reg))).1 == Done && NewTag(b, s.top, t) == Some(p)
  {
    hide Step, LocalTops;
  }

  lemma NothingRun(b: Buffer, v: VState, code: seq<VInstruction>)
    requires Wf(b, v.frames)
    ensures VExecutes(b, v, code[..0], v, Done)
  {
    hide Wf;
  }

  lemma EndsIs(w: VState, i: VInstruction)
    ensures Ends(w, i) <==> i.Plain? && (i.i.RET? || i.i.RETVOID?) && |w.frames.frames| == 1
  {
  }

  /** Every frame, record, argument, register bank and local variable is where its alignment asks for it. */
  ghost predicate EachAligned(b: Buffer, items: seq<Item>) {
    forall k :: 0 <= k < |items| ==> CellAligned(b, items[k].off, items[k].cell)
  }

  ghost predicate CellAligned(b: Buffer, off: nat, c: Cell) {
    && off <= b.address
    && match c
       case MajorCell(_) => b.sizes.majorAlign > 0 && (b.address - off) % b.sizes.majorAlign == 0
       case MinorCell(_) => b.sizes.minorAlign > 0 && (b.address - off) % b.sizes.minorAlign == 0
       case RecordCell(_, _) => b.sizes.recordAlign > 0 && (b.address - off) % b.sizes.recordAlign == 0
       case Block(size, Bank(align)) => align > 0 && (b.address - off) % align == 0
       case Block(size, Argument(_)) => b.sizes.valueAlign > 0 && (b.address - off) % b.sizes.valueAlign == 0
       case Block(size, Data(_)) => size > 0 && (b.address - off) % size == 0
       case Block(_, _) => true
  }

  lemma AlignedCell(b: Buffer, off: nat, c: Cell)
    requires AlignedAt(b, off, Alignment(b.sizes, c))
    ensures CellAligned(b, off, c)
  {
  }

  /** The byte o below the upper end of the stack is the byte x of a local variable. */
  ghost predicate ByteIs(items: seq<Item>, o: nat, x: Byte) {
    exists k :: 0 <= k < |items| && HasByte(items[k], o, x)
  }

  ghost predicate HasByte(i: Item, o: nat, x: Byte) {
    && i.cell.Block? && i.cell.content.Data? && |i.cell.content.bytes| == i.cell.size
    && o <= i.off < o + i.cell.size && i.cell.content.bytes[i.off - o] == x
  }

  /** Writing a variable sets the bytes of its own, and no other. */
  lemma BytesWritten(b: Buffer, m: Memory, a: seq<Item>, k: nat, off: nat, t: TypeId, bytes: seq<Byte>)
    requires Live(b, m, a) && LocalAt(a, k, off, t) && |bytes| == SizeOf(t)
    ensures var c := a[k := Item(off - 2, Block(SizeOf(t), Data(bytes)))];
            forall o: nat, x: Byte :: ByteIs(c, o, x) <==>
              if o <= off - 2 < o + SizeOf(t) then x == bytes[off - 2 - o] else ByteIs(a, o, x)
  {
    var c := a[k := Item(off - 2, Block(SizeOf(t), Data(bytes)))];
    forall o: nat, x: Byte
      ensures ByteIs(c, o, x) <==>
              if o <= off - 2 < o + SizeOf(t) then x == bytes[off - 2 - o] else ByteIs(a, o, x)
    {
      OneByte(b, m, a, k, off, t, bytes, o, x);
    }
    hide *;
  }

  lemma OneByte(b: Buffer, m: Memory, a: seq<Item>, k: nat, off: nat, t: TypeId, bytes: seq<Byte>, o: nat, x: Byte)
    requires Live(b, m, a) && LocalAt(a, k, off, t) && |bytes| == SizeOf(t)
    ensures ByteIs(a[k := Item(off - 2, Block(SizeOf(t), Data(bytes)))], o, x) <==>
              if o <= off - 2 < o + SizeOf(t) then x == bytes[off - 2 - o] else ByteIs(a, o, x)
  {
    var c := a[k := Item(off - 2, Block(SizeOf(t), Data(bytes)))];
    var inside := o <= off - 2 < o + SizeOf(t);
    forall j | 0 <= j < |a| && j != k && HasByte(a[j], o, x)
      ensures !inside && c[j] == a[j]
    {
      LiveDisjoint(b, m, a, if j < k then j else k, if j < k then k else j);
    }
    hide Live;
    if inside {
      assert HasByte(c[k], o, bytes[off - 2 - o]);
    } else {
      assert !HasByte(a[k], o, x) && !HasByte(c[k], o, x);
      if ByteIs(a, o, x) {
        var j :| 0 <= j < |a| && HasByte(a[j], o, x);
        assert HasByte(c[j], o, x);
      }
      if ByteIs(c, o, x) {
        var j :| 0 <= j < |c| && HasByte(c[j], o, x);
        assert HasByte(a[j], o, x);
      }
    }
  }

  /** The parts of a new local variable whose type tag is at off: its data, still undefined, and two
      bytes for its type. */
  ghost function LocalParts(off: nat, t: TypeId): seq<Item>
    requires off >= 2
  {
    [Item(off - 2, Block(SizeOf(t), Bank(SizeOf(t)))), Item(off - 1, Block(1, Modifier(0))),
     Item(off, Block(1, TypeTag(t)))]
  }

  /** Where the type tag of a new local variable is. */
  ghost function NewTag(b: Buffer, top: nat, t: TypeId): Option<nat> {
    if GoodBuffer(b) && top <= b.size && LocalTops(b, top, SizeOf(t), SizeOf(t)).Some? then
      Some(LocalTops(b, top, SizeOf(t), SizeOf(t)).value.0)
    else None
  }

  lemma NewTagIs(b: Buffer, top: nat, t: TypeId)
    requires GoodBuffer(b) && top <= b.size
    ensures SizeOf(t) > 0
    ensures NewTag(b, top, t) == match LocalTops(b, top, SizeOf(t), SizeOf(t))
                                 case None => None
                                 case Some(p) => Some(p.0)
  {
  }

  lemma ZeroInRange(t: TypeId)
    ensures InRange(t, 0)
  {
  }

  lemma BumpRoom(b: Buffer, top: nat, size: nat, align: nat, t: nat)
    requires align > 0 && top <= b.size <= b.address && AlignedBump(b, top, size, align) == Some(t)
    ensures top + size <= t <= b.size
  {
  }

  lemma EnterIs(b: Buffer, s: AState)
    requires Wf(b, s)
    ensures s.frames != [] && b.sizes.minorAlign > 0 && s.top <= b.size <= b.address
    ensures match AlignedBump(b, s.top, b.sizes.minor, b.sizes.minorAlign)
            case None => FrameSpec.Enter(b, s) == (s, StackOverflow)
            case Some(t) => FrameSpec.Enter(b, s).1 == Done && forall pre: seq<AFrame>, f :: s.frames == pre + [f] ==>
                FrameSpec.Enter(b, s).0 == AState(t, pre + [f.(minors := f.minors + [AMinor(s.top, [])])])
  {
  }

  /** What PUSHARG comes to, by cases. */
  lemma PushIs(b: Buffer, s: AState, reg: nat)
    requires Wf(b, s)
    ensures s.frames != [] && Possible(s, PushOp(reg)) && Wf(b, Step(b, s, PushOp(reg)).0)
    ensures b.sizes.valueAlign > 0 && s.top <= b.size <= b.address && Cur(s) == s.frames[|s.frames| - 1]
    ensures var (r, d) := (Step(b, s, PushOp(reg)), s.frames[|s.frames| - 1].data);
            && d.offNextArgs <= SIZE_MAX
            && (reg >= |d.regs| ==> r == (s, InvalidOperands))
            && (reg < |d.regs| ==>
                  match AlignedBump(b, s.top, b.sizes.value, b.sizes.valueAlign)
                  case None => r == (s, StackOverflow)
                  case Some(t) =>
                    && s.top + b.sizes.value <= t <= b.size
                    && if d.numNextArgs > 0 && Minus64(t, d.offNextArgs) != b.sizes.value then
                         r == (AState(t, s.frames), InvalidOperands)
                       else
                         var begin := if d.numNextArgs > 0 then d.offNextArgsBegin else s.top;
                         var e := d.(offNextArgs := t, offNextArgsBegin := begin, numNextArgs := d.numNextArgs + 1);
                         r == (AState(t, WithData(s.frames, e)),
                               Done))
  {
    StepKeepsWf(b, s, PushOp(reg));
    CurrentFacts(b, s);
  }

  /** What LVAR comes to, by cases. */
  lemma LocalIs(b: Buffer, s: AState, t: TypeId, reg: nat)
    requires Wf(b, s)
    ensures var op := LocalOp(SizeOf(t), SizeOf(t), reg); Possible(s, op) && Wf(b, Step(b, s, op).0)
    ensures s.frames != [] && s.frames[|s.frames| - 1].minors != [] && SizeOf(t) > 0 && s.top <= b.size
    ensures Cur(s) == s.frames[|s.frames| - 1]
    ensures var (r, d) := (Step(b, s, LocalOp(SizeOf(t), SizeOf(t), reg)), s.frames[|s.frames| - 1].data);
            && (reg >= |d.regs| ==> r == (s, InvalidOperands))
            && (reg < |d.regs| ==>
                  match LocalTops(b, s.top, SizeOf(t), SizeOf(t))
                  case None => r == (s, StackOverflow)
                  case Some(p) =>
                    r == (AState(p.1, WithData(WithLocal(s.frames, reg), d.(regs := d.regs[reg := LocalVarRef(p.0)]))),
                        Done))
    ensures var fs := s.frames; |WithLocal(fs, reg)| == |fs| && WithLocal(fs, reg)[|fs| - 1].data == fs[|fs| - 1].data
  {
    StepKeepsWf(b, s, LocalOp(SizeOf(t), SizeOf(t), reg));
    CurrentFacts(b, s);
    hide Wf, WfFrame, HighBase, LocalTops;
    var (n, fs) := (|s.frames| - 1, WithLocal(s.frames, reg));
    forall e: FrameData
      ensures WithData(fs, e) == s.frames[n := fs[n].(data := e)]
    {
    }
  }

  lemma WithDataLast(pre: seq<AFrame>, f: AFrame, data: FrameData)
    ensures WithData(pre + [f], data) == pre + [f.(data := data)]
  {
  }

  lemma SameExtent(z: Sizes, items: seq<Item>, k: nat)
    requires k < |items| && items[k].cell.MajorCell?
    ensures forall m {:trigger MajorCell(m)} ::
              && Extent(z, MajorCell(m)) == Extent(z, items[k].cell)
              && Alignment(z, MajorCell(m)) == Alignment(z, items[k].cell)
  {
  }

  /** The variable whose data is the k-th live cell, whose type is t, and whose type tag is at off. */
  ghost predicate LocalAt(items: seq<Item>, k: nat, off: nat, t: TypeId) {
    && off >= 2 && k + 2 < |items|
    && items[k].off == off - 2 && items[k].cell.Block? && items[k].cell.size == SizeOf(t)
    && (items[k].cell.content == Bank(SizeOf(t)) || items[k].cell.content.Data?)
    && items[k + 1] == Item(off - 1, Block(1, Modifier(0))) && items[k + 2] == Item(off, Block(1, TypeTag(t)))
  }

  /** The frames with one more local variable in the innermost minor frame. */
  ghost function WithLocal(fs: seq<AFrame>, reg: nat): seq<AFrame>
    requires fs != [] && fs[|fs| - 1].minors != []
  {
    var f := fs[|fs| - 1];
    var m := f.minors[|f.minors| - 1];
    fs[|fs| - 1 := f.(minors := f.minors[|f.minors| - 1 := m.(locals := [reg] + m.locals)])]
  }

  /** These come last. */
  ghost predicate Last(items: seq<Item>, banks: seq<Item>) {
    |banks| <= |items| && items[|items| - |banks|..] == banks
  }

  lemma LastOf(n: nat, b: seq<Item>, banks: seq<Item>)
    requires |b| == n + |banks| && forall i :: n <= i < |b| ==> b[i] == banks[i - n]
    ensures Last(b, banks)
  {
  }

  lemma LastOfNew(a: seq<Item>, offMajor: nat, major: MajorFrame, offMinor: nat, banks: seq<Item>)
    ensures Last(a + NewCells(offMajor, major, offMinor, major.prevStackTop, banks), banks)
  {
  }

  /** Plain blocks stay where and what they are. */
  ghost predicate BlocksKept(a: seq<Item>, b: seq<Item>) {
    |a| <= |b| && forall i :: 0 <= i < |a| && a[i].cell.Block? ==> b[i] == a[i]
  }

  /** The plain blocks up to an offset stay where and what they are. */
  ghost predicate KeptUpTo(a: seq<Item>, b: seq<Item>, top: nat) {
    forall i :: 0 <= i < |a| && a[i].off <= top && a[i].cell.Block? ==> i < |b| && b[i] == a[i]
  }

  lemma AllKept(a: seq<Item>, b: seq<Item>, top: nat)
    requires BlocksKept(a, b)
    ensures KeptUpTo(a, b, top)
  {
  }

  lemma KeptLess(a: seq<Item>, b: seq<Item>, top: nat, less: nat)
    requires KeptUpTo(a, b, top) && less <= top
    ensures KeptUpTo(a, b, less)
  {
  }

  lemma KeptTrans(a: seq<Item>, b: seq<Item>, c: seq<Item>, top: nat)
    requires KeptUpTo(a, b, top) && KeptUpTo(b, c, top)
    ensures KeptUpTo(a, c, top)
  {
  }

  /** Cutting the cells off at one that is above top. */
  lemma CutKeeps(buf: Buffer, m: Memory, a: seq<Item>, b: seq<Item>, k: nat, top: nat)
    requires Live(buf, m, a) && k < |a| && top < a[k].off && |b| == k
    requires forall i :: 0 <= i < k && a[i].cell.Block? ==> b[i] == a[i]
    ensures KeptUpTo(a, b, top)
  {
    forall i | 0 <= i < |a| && a[i].off <= top
      ensures i < k
    {
      assert a[i].off < a[k].off;
    }
  }

  lemma SameBlocks(a: seq<Item>)
    ensures BlocksKept(a, a)
  {
  }

  lemma KeepsBlocks(a: seq<Item>, b: seq<Item>)
    requires |a| <= |b| && forall i :: 0 <= i < |a| && a[i].cell.Block? ==> b[i] == a[i]
    ensures BlocksKept(a, b)
  {
  }

  lemma WithLocalIs(items: seq<Item>, fs: seq<FrameIdx>, reg: nat)
    requires FramesOk(items, fs, |items|, SIZE_MAX) && fs != []
    ensures |AbsFrames(items, fs)| == |fs| && AbsFrames(items, fs)[|fs| - 1].minors != []
    ensures forall pre: seq<AFrame>, f: AFrame {:trigger pre + [f]} :: AbsFrames(items, fs) == pre + [f] ==>
              var m := f.minors[|f.minors| - 1];
              var minors := f.minors[|f.minors| - 1 := m.(locals := [reg] + m.locals)];
              WithLocal(AbsFrames(items, fs), reg) == pre + [f.(minors := minors)]
  {
  }

  /** The variable at off holds a value. */
  ghost predicate Holds(items: seq<Item>, k: nat, off: nat, t: TypeId, value: Value) {
    && LocalAt(items, k, off, t) && value.Primitive? && value.valueType == t
    && items[k].cell.content == Data(Encode(t, value.payload))
  }

  lemma LocalKept(a: seq<Item>, b: seq<Item>, c: seq<Item>, off: nat, t: TypeId)
    requires BlocksKept(a, b) && BlocksKept(b, c) && LocalAt(b, |a|, off, t)
    ensures BlocksKept(a, c) && LocalAt(c, |a|, off, t)
  {
  }

  lemma LocalWritten(a: seq<Item>, b: seq<Item>, off: nat, t: TypeId, value: Value)
    requires BlocksKept(a, b) && LocalAt(b, |a|, off, t) && value.Primitive? && value.valueType == t
    ensures var c := b[|a| := Item(off - 2, Block(SizeOf(t), Data(Encode(t, value.payload))))];
            BlocksKept(a, c) && Holds(c, |a|, off, t, value)
  {
  }

  lemma LocalMade(items: seq<Item>, off: nat, t: TypeId)
    requires off >= 2
    ensures LocalAt(items + LocalParts(off, t), |items|, off, t) && BlocksKept(items, items + LocalParts(off, t))
  {
  }

  /** Major frames stay where they are, and all other cells stay what they are. */
  ghost predicate OthersKept(a: seq<Item>, b: seq<Item>) {
    |a| == |b| && forall i {:trigger b[i]} {:trigger a[i]} :: 0 <= i < |a| ==>
      a[i].off == b[i].off && if a[i].cell.MajorCell? then b[i].cell.MajorCell? else b[i] == a[i]
  }

  lemma SomeKept(a: seq<Item>, b: seq<Item>, c: seq<Item>, top: nat)
    requires BlocksKept(a, b) && KeptUpTo(b, c, top)
    ensures KeptUpTo(a, c, top)
  {
  }

  lemma OthersToBlocks(a: seq<Item>, b: seq<Item>, top: nat)
    requires OthersKept(a, b)
    ensures KeptUpTo(a, b, top)
  {
  }

  lemma KeepsOthers(a: seq<Item>, b: seq<Item>)
    requires |a| == |b|
    requires forall i :: 0 <= i < |a| ==>
              a[i].off == b[i].off && if a[i].cell.MajorCell? then b[i].cell.MajorCell? else b[i] == a[i]
    ensures OthersKept(a, b)
  {
  }

  lemma NoneInvalid(items: seq<Item>, fs: seq<AFrame>, rs: seq<nat>)
    requires fs != []
    ensures OthersKept(items, items)
    ensures var d := fs[|fs| - 1].data; WithData(fs, d.(regs := Invalidate(d.regs, RecordRegs(items, rs[..0])))) == fs
  {
  }

  /** The record to look at next, and the register it names. */
  lemma NextRecord(before: seq<Item>, items: seq<Item>, rs: seq<nat>, n: nat, off: nat, k: nat, regs: seq<Value>)
    requires n <= |rs| && RecordsOk(items, rs[n..], off, k, |items|) && off != SIZE_MAX && OthersKept(before, items)
    requires forall r :: r in RecordRegs(before, rs) ==> r < |regs|
    ensures n < |rs| && rs[n] < |items| && items[rs[n]].cell.RecordCell? && items[rs[n]].off == off
    ensures RecordsOk(items, rs[n + 1..], items[rs[n]].cell.offNext, k, |items|)
    ensures var reg := items[rs[n]].cell.defReg;
            var done := Invalidate(regs, RecordRegs(before, rs[..n]));
            reg < |done| && Invalidate(regs, RecordRegs(before, rs[..n + 1])) == done[reg := Invalid]
  {
    var rest := rs[n..];
    assert rest[0] == rs[n] && rest[1..] == rs[n + 1..];
    RecordsWiden(items, rest[1..], items[rs[n]].cell.offNext, k, rs[n], |items|);
    var reg := items[rs[n]].cell.defReg;
    assert RecordRegs(before, rs)[n] == reg && reg in RecordRegs(before, rs);
    assert RecordRegs(before, rs[..n + 1]) == RecordRegs(before, rs[..n]) + [reg];
    InvalidateOneMore(regs, RecordRegs(before, rs[..n]), reg);
  }

  lemma InvalidateOneMore(regs: seq<Value>, locals: seq<nat>, reg: nat)
    requires reg < |regs|
    ensures Invalidate(regs, locals + [reg]) == Invalidate(regs, locals)[reg := Invalid]
  {
    var (a, b) := (Invalidate(regs, locals + [reg]), Invalidate(regs, locals)[reg := Invalid]);
    hide Invalidate;
    assert |a| == |b| == |regs|;
    forall i | 0 <= i < |regs|
      ensures a[i] == b[i]
    {
      assert i in locals + [reg] <==> i in locals || i == reg;
    }
  }

  lemma DataOf(fs: seq<AFrame>, d: FrameData)
    requires fs != []
    ensures |WithData(fs, d)| == |fs| && WithData(fs, d)[|fs| - 1].data == d
    ensures forall e {:trigger WithData(WithData(fs, d), e)} :: WithData(WithData(fs, d), e) == WithData(fs, e)
  {
  }

  lemma RestKept(a: seq<Item>, b: seq<Item>, c: seq<Item>, rs: seq<nat>, n: nat, off: nat, k: nat)
    requires n <= |rs| && RecordsOk(b, rs[n..], off, k, |b|) && OthersKept(a, b) && OthersKept(b, c)
    ensures RecordsOk(c, rs[n..], off, k, |c|) && OthersKept(a, c)
  {
    RecordsKept(b, c, rs[n..], off, k, |b|);
  }

  lemma AllInvalid(before: seq<Item>, items: seq<Item>, rs: seq<nat>, n: nat, off: nat, k: nat)
    requires n <= |rs| && RecordsOk(items, rs[n..], off, k, |items|) && off == SIZE_MAX && OthersKept(before, items)
    requires forall i :: 0 <= i < |before| ==> before[i].off < SIZE_MAX
    ensures rs[..n] == rs
  {
    assert rs[n..] == [];
  }

  lemma BelowMax(b: Buffer, m: Memory, items: seq<Item>, top: nat)
    requires GoodBuffer(b) && Live(b, m, items) && Top(items) <= top <= b.size
    ensures forall i :: 0 <= i < |items| ==> items[i].off < SIZE_MAX
  {
    forall i | 0 <= i < |items|
      ensures items[i].off < SIZE_MAX
    {
      TopIsHighest(b, m, items, i);
    }
  }

  /** Local variables are in registers of their function. */
  lemma LocalsInRange(b: Buffer, s: AState)
    requires Wf(b, s)
    ensures s.frames != [] && s.frames[|s.frames| - 1].minors != []
    ensures var f := s.frames[|s.frames| - 1]; var locals := f.minors[|f.minors| - 1].locals;
            forall r :: r in locals ==> r < |f.data.regs|
  {
  }

  /** mf is the innermost minor frame of the current frame, and not its only one. */
  ghost predicate IsInnermost(items: seq<Item>, fs: seq<FrameIdx>, mf: MinorFrame)
    requires fs != []
  {
    var ms := fs[|fs| - 1].minors;
    |ms| > 1 && ms[|ms| - 1].minor < |items| && items[ms[|ms| - 1].minor].cell == MinorCell(mf)
  }

  lemma InnermostIs(items: seq<Item>, outer: seq<FrameIdx>, f: FrameIdx, k: nat)
    requires |f.minors| > 1 && k == f.minors[|f.minors| - 1].minor && k < |items| && items[k].cell.MinorCell?
    ensures IsInnermost(items, outer + [f], items[k].cell.minor)
  {
  }

  /** The frames without the innermost minor frame. */
  ghost function WithoutMinor(fs: seq<AFrame>): seq<AFrame>
    requires fs != [] && fs[|fs| - 1].minors != []
  {
    var f := fs[|fs| - 1];
    fs[|fs| - 1 := f.(minors := f.minors[..|f.minors| - 1])]
  }

  lemma WithoutMinorLast(pre: seq<AFrame>, f: AFrame)
    requires f.minors != []
    ensures WithoutMinor(pre + [f]) == pre + [f.(minors := f.minors[..|f.minors| - 1])]
  {
  }

  lemma StillInnermost(a: seq<Item>, b: seq<Item>, fs: seq<FrameIdx>, mf: MinorFrame)
    requires fs != [] && IsInnermost(a, fs, mf) && OthersKept(a, b)
    ensures IsInnermost(b, fs, mf)
  {
  }

  lemma LeaveOneIs(s: AState, pre: seq<AFrame>, f: AFrame)
    requires s.frames == pre + [f] && f.minors != []
    ensures LeaveOne(s).1 == if |f.minors| == 1 then FrameBoundaryExceeded else Done
    ensures |f.minors| == 1 ==> LeaveOne(s).0 == s
    ensures |f.minors| > 1 ==>
      var m := f.minors[|f.minors| - 1];
      var g := f.(data := f.data.(regs := Invalidate(f.data.regs, m.locals)));
      && WithData(s.frames, g.data) == pre + [g] && g.minors != []
      && LeaveOne(s).0 == AState(m.base, WithoutMinor(WithData(s.frames, g.data)))
  {
  }

  lemma LeaveUnfolds(s: AState, level: nat)
    requires s.frames != [] && Cur(s).minors != [] && level > 0
    ensures LeaveOne(s).1 != Done ==> FrameSpec.Leave(s, level) == LeaveOne(s)
    ensures LeaveOne(s).1 == Done ==>
      var t := LeaveOne(s).0;
      t.frames != [] && Cur(t).minors != [] && FrameSpec.Leave(s, level) == FrameSpec.Leave(t, level - 1)
  {
  }

  lemma LeaveNothing(s: AState)
    requires s.frames != [] && Cur(s).minors != []
    ensures FrameSpec.Leave(s, 0) == (s, Done)
  {
  }

  lemma BankTop(b: Buffer, top: nat, bank: BankInfo)
    requires top <= b.size <= b.address && Fits(bank.size, bank.align)
    ensures bank.align > 0 && (bank.count > 0 ==> bank.size * bank.count > 0)
    ensures BankBump(b, top, bank) == if bank.count == 0 then Some(top)
              else AlignedBump(b, top, bank.size * bank.count, bank.align)
  {
  }

  lemma BlockLike(z: Sizes, size: nat, align: nat)
    ensures Extent(z, Block(size, Bank(align))) == size && Alignment(z, Block(size, Bank(align))) == align
  {
  }

  /** Once the banks do not fit, they do not fit. */
  lemma {:induction false} NoMoreBanks(b: Buffer, top: nat, f: FnInfo, n: nat)
    requires n <= |f.banks| && GoodFn(f) && top <= b.size <= b.address && BanksBump(b, top, f, n) == None
    ensures BanksBump(b, top, f, |f.banks|) == None
    decreases |f.banks| - n
  {
    if n < |f.banks| {
      NoMoreBanks(b, top, f, n + 1);
    }
  }

  lemma HasCurrent(items: seq<Item>, fs: seq<FrameIdx>)
    requires FramesOk(items, fs, |items|, SIZE_MAX) && forall i :: 0 <= i < |items| ==> items[i].off < SIZE_MAX
    ensures fs == [] <==> LastMajor(items, fs) == SIZE_MAX
    ensures fs == [] ==> AbsFrames(items, fs) == []
  {
  }

  lemma FrameDrafted(a: seq<Item>, b: seq<Item>, draft: MajorFrame, major: MajorFrame, offMajor: nat, offMinor: nat,
                     banks: seq<Item>)
    requires var minor := MinorFrame(SIZE_MAX, SIZE_MAX, major.prevStackTop);
             b == a + [Item(offMajor, MajorCell(draft)), Item(offMinor, MinorCell(minor))] + banks
    ensures |a| < |b| && b[|a|] == Item(offMajor, MajorCell(draft))
    ensures b[|a| := Item(offMajor, MajorCell(major))] == a + NewCells(offMajor, major, offMinor, major.prevStackTop,
              banks)
  {
  }

  /** What Create comes to, by cases. */
  lemma CreateIs(b: Buffer, s: AState, f: FnInfo, offArgs: nat, numArgs: nat, out: nat)
    requires GoodBuffer(b) && s.top <= b.size && GoodFn(f)
    requires s.frames != [] ==> Wf(b, s) && (out != INVALID_REG ==> out < |Cur(s).data.regs|)
    ensures FrameTops(b, s.top, f) == None ==> Create(b, s, f, offArgs, numArgs, out) == (s, StackOverflow)
    ensures FrameTops(b, s.top, f).Some? ==>
      var (t, data) := (Create(b, s, f, offArgs, numArgs, out), NewData(f, offArgs, numArgs, out));
      && t.1 == Done && Wf(b, t.0) && t.0.top == FrameTops(b, s.top, f).value.2
      && (s.frames == [] ==> t.0.frames == [AFrame(s.top, [AMinor(s.top, [])], data)])
      && (s.frames != [] ==>
            var d := s.frames[|s.frames| - 1].data;
            t.0.frames == WithData(s.frames, d.(offNextArgsBegin := SIZE_MAX)) +
                [AFrame(s.top, [AMinor(d.offNextArgsBegin, [])], data)])
  {
    CreateKeepsWf(b, s, f, offArgs, numArgs, out);
  }

  lemma PoppedIs(b: Buffer, s: AState)
    requires s.frames != [] && Wf(b, s)
    ensures Popped(s) == AState(s.frames[|s.frames| - 1].prevTop, s.frames[..|s.frames| - 1])
    ensures s.frames[|s.frames| - 1].prevTop <= s.top && (|s.frames| > 1 ==> Wf(b, Popped(s)))
  {
    if |s.frames| > 1 {
      PopKeepsWf(b, s);
    }
  }

  ghost function WithCallerData(fs: seq<AFrame>, data: FrameData): seq<AFrame>
    requires |fs| > 1
  {
    fs[|fs| - 2 := fs[|fs| - 2].(data := data)]
  }

  lemma WithCallerDataLast(pre: seq<AFrame>, caller: AFrame, cur: AFrame, data: FrameData)
    ensures WithCallerData(pre + [caller, cur], data) == pre + [caller.(data := data), cur]
  {
  }

  /** Where the cell of the frame below the current one is. */
  lemma CallerCell(items: seq<Item>, fs: seq<FrameIdx>) returns (c: nat, k: nat)
    requires FramesOk(items, fs, |items|, SIZE_MAX) && |fs| > 1
    ensures c < |items| && k < |items| && items[c].cell.MajorCell? && items[k].cell.MajorCell?
    ensures items[k].off == LastMajor(items, fs) && items[c].off == items[k].cell.major.offPrev
    ensures |AbsFrames(items, fs)| == |fs| && items[c].cell.major.data == AbsFrames(items, fs)[|fs| - 2].data
  {
    var b, pre, caller, cur;
    AbsLength(items, fs);
    c, k, b, pre, caller, cur := CallerChanged(items, fs, AbsFrames(items, fs)[|fs| - 2].data);
  }

  /** The frame below the current one has handed its arguments over. */
  ghost function HandedOver(t: AState): AState
    requires |t.frames| > 1
  {
    t.(frames := WithCallerData(t.frames, t.frames[|t.frames| - 2].data.(offNextArgs := SIZE_MAX, numNextArgs := 0)))
  }

  lemma HandedOverIs(t: AState)
    requires |t.frames| > 1
    ensures var d := t.frames[|t.frames| - 2].data;
            HandedOver(t) == AState(t.top, WithCallerData(t.frames, d.(offNextArgs := SIZE_MAX, numNextArgs := 0)))
  {
  }

  /** The frame below the current one has received the result. */
  ghost function Received(s: AState, value: Option<Value>): AState
    requires |s.frames| > 1
  {
    var n := |s.frames| - 2;
    s.(frames := WithCallerData(s.frames, WithResult(s.frames[n].data, s.frames[n + 1].data.returnReg, value)))
  }

  lemma ReceivedIs(b: Buffer, s: AState, value: Option<Value>)
    requires Wf(b, s) && |s.frames| > 1
    ensures Wf(b, Received(s, value))
    ensures var (out, d) := (s.frames[|s.frames| - 1].data.returnReg, s.frames[|s.frames| - 2].data);
            && (out == INVALID_REG ==> Received(s, value) == s)
            && (out != INVALID_REG ==> out < |d.regs|)
            && (out != INVALID_REG && value.Some? ==>
                  Received(s, value) == AState(s.top, WithCallerData(s.frames, d.(regs := d.regs[out := value.value]))))
  {
    ReceivedKeepsWf(b, s, value);
    var n := |s.frames| - 2;
    assert Returnable(s.frames[n], s.frames[n + 1]);
    hide Wf;
    assert s.frames[n := s.frames[n].(data := s.frames[n].data)] == s.frames;
  }

  lemma ReceivedKeepsWf(b: Buffer, s: AState, value: Option<Value>)
    requires Wf(b, s) && |s.frames| > 1
    ensures Wf(b, Received(s, value))
  {
    var n := |s.frames| - 2;
    assert WfFrame(s.frames[n]);
    hide Wf, HighBase;
    CallerKeepsWf(b, s, WithResult(s.frames[n].data, s.frames[n + 1].data.returnReg, value));
  }

  /** What RET comes to, by cases. */
  lemma RetIs(b: Buffer, s: AState, from: Option<nat>)
    requires Wf(b, s) && |s.frames| > 1
    ensures Possible(s, RetOp(from)) && Wf(b, Received(s, Returned(s.frames[|s.frames| - 1], from)))
    ensures var f := s.frames[|s.frames| - 1];
            var (out, value) := (f.data.returnReg, Returned(f, from));
            Step(b, s, RetOp(from)) ==
              if out != INVALID_REG && (value.None? || out >= |f.data.regs|) then (s, InvalidOperands)
              else (Popped(Received(s, value)), Done)
  {
    ReceivedIs(b, s, Returned(s.frames[|s.frames| - 1], from));
    hide Returned, Wf;
  }

  lemma ReturnedIs(f: AFrame, from: Option<nat>)
    ensures Returned(f, from) ==
              if from.Some? && from.value < |f.data.regs| then Some(f.data.regs[from.value]) else None
  {
  }

  /** What CALL comes to, by cases. */
  lemma CallIs(b: Buffer, s: AState, f: FnInfo, out: nat)
    requires Wf(b, s) && GoodFn(f)
    ensures s.frames != [] && s.top <= b.size && GoodBuffer(b)
    ensures var d := s.frames[|s.frames| - 1].data;
            && (out != INVALID_REG && out >= |d.regs| ==> FrameSpec.Call(b, s, f, out) == (s, InvalidOperands))
            && (out == INVALID_REG || out < |d.regs| ==>
                  var (t, o) := Create(b, s, f, d.offNextArgs, d.numNextArgs, out);
                  && (o != Done ==> FrameSpec.Call(b, s, f, out) == (t, o))
                  && (o == Done ==>
                        |t.frames| == |s.frames| + 1 && FrameSpec.Call(b, s, f, out) == (HandedOver(t), Done)))
  {
  }

  lemma LastKept(a: seq<Item>, b: seq<Item>, c: seq<Item>)
    requires BlocksKept(a, b) && BlocksKept(b, c) && |b| == |c|
    ensures BlocksKept(a, c) && (b != [] && b[|b| - 1].cell.Block? ==> c[|c| - 1] == b[|b| - 1])
  {
  }

  lemma BlocksTrans(a: seq<Item>, b: seq<Item>, c: seq<Item>)
    requires BlocksKept(a, b) && BlocksKept(b, c)
    ensures BlocksKept(a, c)
  {
  }

  // ----- Arguments

  /** The arguments vals, last pushed first, are the live cells down from the k-th, each directly
      followed by the one pushed before it; off is the offset of the last one. */
  ghost predicate ArgsAt(z: Sizes, items: seq<Item>, k: nat, off: nat, vals: seq<Value>) {
    && |vals| <= k + 1 && k < |items|
    && (forall j :: 0 <= j < |vals| ==>
          off >= j * z.value && items[k - j] == Item(off - j * z.value, Block(z.value, Argument(vals[j]))))
  }

  lemma ArgsKept(z: Sizes, a: seq<Item>, b: seq<Item>, k: nat, off: nat, vals: seq<Value>)
    requires ArgsAt(z, a, k, off, vals) && BlocksKept(a, b)
    ensures ArgsAt(z, b, k, off, vals)
  {
  }

  /** The last argument is the last live cell, if nothing is above it. */
  lemma LastArg(buf: Buffer, m: Memory, a: seq<Item>, k: nat, off: nat, vals: seq<Value>)
    requires Live(buf, m, a) && ArgsAt(buf.sizes, a, k, off, vals) && vals != [] && Top(a) <= off && buf.sizes.value > 0
    ensures k == |a| - 1
  {
    BelowLast(buf, m, a, k);
    assert a[k - 0] == Item(off - 0 * buf.sizes.value, Block(buf.sizes.value, Argument(vals[0])));
  }

  lemma BelowLast(buf: Buffer, m: Memory, a: seq<Item>, k: nat)
    requires Live(buf, m, a) && k < |a|
    ensures k == |a| - 1 || a[k].off < Top(a)
  {
  }

  /** The j-th argument is in its place. */
  ghost predicate ArgAt(z: Sizes, items: seq<Item>, k: nat, off: nat, vals: seq<Value>, j: nat)
    requires j < |vals|
  {
    && j <= k < |items| && off >= j * z.value
    && items[k - j] == Item(off - j * z.value, Block(z.value, Argument(vals[j])))
  }

  lemma JoinedAt(z: Sizes, a: seq<Item>, b: seq<Item>, k: nat, off: nat, vals: seq<Value>, v: Value, j: nat)
    requires ArgsAt(z, a, k, off, vals) && BlocksKept(a, b) && 0 < j <= |vals| <= k + 1 < |b|
    ensures ArgAt(z, b, k + 1, off + z.value, [v] + vals, j)
  {
    var i := j - 1;
    assert a[k - i] == Item(off - i * z.value, Block(z.value, Argument(vals[i])));
    assert j * z.value == i * z.value + z.value;
  }

  /** An argument that follows the last one directly joins the ones before it. */
  lemma ArgJoins(buf: Buffer, m: Memory, a: seq<Item>, b: seq<Item>, k: nat, off: nat, vals: seq<Value>, v: Value)
    requires Live(buf, m, a) && ArgsAt(buf.sizes, a, k, off, vals) && vals != [] && BlocksKept(a, b) && |b| == |a| + 1
    requires b[|a|] == Item(off + buf.sizes.value, Block(buf.sizes.value, Argument(v)))
    requires Top(a) <= off && buf.sizes.value > 0
    ensures ArgsAt(buf.sizes, b, |a|, off + buf.sizes.value, [v] + vals)
  {
    LastArg(buf, m, a, k, off, vals);
    assert |vals| <= k + 1 by {
      hide Live, Top, BlocksKept;
    }
    var (all, n, last) := ([v] + vals, |a|, off + buf.sizes.value);
    assert ArgAt(buf.sizes, b, n, last, all, 0);
    hide Live, Top, BlocksKept, ArgsAt, ArgAt;
    forall j: nat | j < |all|
      ensures ArgAt(buf.sizes, b, n, last, all, j)
    {
      if j > 0 {
        JoinedAt(buf.sizes, a, b, k, off, vals, v, j);
      }
    }
    ArgsBy(buf.sizes, b, n, last, all);
  }

  lemma ArgsBy(z: Sizes, items: seq<Item>, k: nat, off: nat, vals: seq<Value>)
    requires |vals| <= k + 1 && k < |items| && forall j: nat :: j < |vals| ==> ArgAt(z, items, k, off, vals, j)
    ensures ArgsAt(z, items, k, off, vals)
  {
    forall j: nat | j < |vals|
      ensures off >= j * z.value && items[k - j] == Item(off - j * z.value, Block(z.value, Argument(vals[j])))
    {
      assert ArgAt(z, items, k, off, vals, j);
    }
  }

  /** The values of the registers args, the last one first. */
  ghost function LastFirst(regs: seq<Value>, args: seq<nat>): (r: seq<Value>)
    requires forall i :: 0 <= i < |args| ==> args[i] < |regs|
    ensures |r| == |args| && forall i :: 0 <= i < |args| ==> r[i] == regs[args[|args| - 1 - i]]
  {
    if args == [] then [] else LastFirst(regs, args[1..]) + [regs[args[0]]]
  }

  lemma {:induction false} LastFirstSnoc(regs: seq<Value>, args: seq<nat>, x: nat)
    requires x < |regs| && forall i :: 0 <= i < |args| ==> args[i] < |regs|
    ensures LastFirst(regs, args + [x]) == [regs[x]] + LastFirst(regs, args)
  {
  }

  function Pushes(args: seq<nat>): seq<Op> {
    seq(|args|, i requires 0 <= i < |args| => PushOp(args[i]))
  }

  /** Pushing the registers args and calling f. */
  function Passing(args: seq<nat>, f: FnInfo, output: nat): seq<Op> {
    Pushes(args) + [CallOp(f, output)]
  }

  lemma NothingPushed(args: seq<nat>)
    ensures Pushes(args[..0]) == []
  {
  }

  lemma OnePushed(b: Buffer, s: AState, args: seq<nat>, n: nat, t: AState)
    requires Wf(b, s) && Wf(b, t) && n < |args| && Executes(b, s, Pushes(args[..n]), t, Done)
    ensures var (u, q) := Step(b, t, PushOp(args[n])); Executes(b, s, Pushes(args[..n + 1]), u, q) && t.top <= u.top
  {
    PushesSnoc(args, n);
    PushRaises(b, t, args[n]);
    CanPush(t, args[n]);
    hide *;
    ExecutesOneMore(b, s, Pushes(args[..n]), t, PushOp(args[n]));
  }

  lemma PushesSnoc(args: seq<nat>, n: nat)
    requires n < |args|
    ensures Pushes(args[..n + 1]) == Pushes(args[..n]) + [PushOp(args[n])]
  {
  }

  lemma CanPush(t: AState, reg: nat)
    ensures Possible(t, PushOp(reg))
  {
  }

  lemma PushRaises(b: Buffer, t: AState, reg: nat)
    requires Wf(b, t)
    ensures t.top <= Step(b, t, PushOp(reg)).0.top
  {
  }

  lemma AllPassed(b: Buffer, s: AState, args: seq<nat>, t: AState, f: FnInfo, output: nat)
    requires Wf(b, s) && Wf(b, t) && GoodFn(f) && Executes(b, s, Pushes(args), t, Done)
    ensures var (u, q) := FrameSpec.Call(b, t, f, output);
            && Executes(b, s, Passing(args, f, output), u, q)
            && (q == Done ==> u.frames != [] && Cur(u).prevTop == t.top)
            && (q == Done && Cur(t).data.numNextArgs > 0 ==> Cur(u).data.offArgs == Cur(t).data.offNextArgs)
  {
    ExecutesOneMore(b, s, Pushes(args), t, CallOp(f, output));
    CallEffect(b, t, f, output);
    hide Wf, Executes, Call, Pushes;
  }

  lemma BelowTop(b: Buffer, m: Memory, items: seq<Item>, top: nat)
    requires Live(b, m, items) && Top(items) <= top
    ensures forall i :: 0 <= i < |items| ==> items[i].off <= top
  {
    forall i | 0 <= i < |items|
      ensures items[i].off <= top
    {
      TopIsHighest(b, m, items, i);
    }
  }

  lemma HoldsStill(a: seq<Item>, b: seq<Item>, top: nat, k: nat, off: nat, t: TypeId, v: Value)
    requires KeptUpTo(a, b, top) && off <= top && Holds(a, k, off, t, v)
    ensures Holds(b, k, off, t, v)
  {
  }

  lemma ArgsStill(z: Sizes, a: seq<Item>, b: seq<Item>, top: nat, k: nat, off: nat, vals: seq<Value>)
    requires KeptUpTo(a, b, top) && off <= top && vals != [] && ArgsAt(z, a, k, off, vals)
    ensures ArgsAt(z, b, k, off, vals)
  {
    hide KeptUpTo;
    assert a[k - 0].off == off - 0 * z.value;
    forall j: nat | j < |vals|
      ensures k < |b| && off >= j * z.value && b[k - j] == Item(off - j * z.value, Block(z.value, Argument(vals[j])))
    {
      assert a[k - j].off == off - j * z.value && j * z.value >= 0;
      CellStill(a, b, top, k);
      CellStill(a, b, top, k - j);
    }
    CellStill(a, b, top, k);
  }

  lemma CellStill(a: seq<Item>, b: seq<Item>, top: nat, k: nat)
    requires KeptUpTo(a, b, top) && k < |a| && a[k].off <= top && a[k].cell.Block?
    ensures k < |b| && b[k] == a[k]
  {
  }

  /** What a run inside a minor frame leaves alone: the variables and the arguments that were there before it
      was entered read as they did. */
  lemma OutsideReadsAlike(b: Buffer, s: AState, ops: seq<Op>, t: AState, n: nat, k: nat, before: seq<Item>,
                          items: seq<Item>)
    requires Wf(b, s) && RunsInside(b, s, ops, t, n, k) && KeptUpTo(before, items, Lowest(b, s, ops))
    ensures Inside(s, n, k)
    ensures forall j: nat, off: nat, ty, v :: Holds(before, j, off, ty, v) && off <= Floor(s.frames[n - 1], k) ==>
              Holds(items, j, off, ty, v)
    ensures forall j: nat, off: nat, vals ::
              vals != [] && off <= Floor(s.frames[n - 1], k) && ArgsAt(b.sizes, before, j, off, vals) ==>
              ArgsAt(b.sizes, items, j, off, vals)
  {
    RunStaysAbove(b, s, ops, t, n, k);
    var low := Lowest(b, s, ops);
    hide *;
    forall j: nat, off: nat, ty, v | Holds(before, j, off, ty, v) && off <= low
      ensures Holds(items, j, off, ty, v)
    {
      HoldsStill(before, items, low, j, off, ty, v);
    }
    forall j: nat, off: nat, vals | ArgsAt(b.sizes, before, j, off, vals) && vals != [] && off <= low
      ensures ArgsAt(b.sizes, items, j, off, vals)
    {
      ArgsStill(b.sizes, before, items, low, j, off, vals);
    }
  }

  lemma VariablesStay(b: Buffer, s: AState, c: AState, ops: seq<Op>, u: AState, first: seq<Item>, before: seq<Item>,
                      items: seq<Item>)
    requires Wf(b, c) && c.frames != [] && RunsInside(b, c, ops, u, |c.frames|, 0)
    requires KeptUpTo(before, items, Lowest(b, c, ops))
    requires s.top <= Cur(c).prevTop && BlocksKept(first, before)
    requires forall i :: 0 <= i < |first| ==> first[i].off <= s.top
    ensures forall j: nat, off: nat, t, v :: Holds(first, j, off, t, v) ==> Holds(items, j, off, t, v)
  {
    RunStaysAbove(b, c, ops, u, |c.frames|, 0);
    var low := Lowest(b, c, ops);
    assert s.top <= low;
    hide Wf, RunsInside, Executes, Lowest, Cur, Floor;
    SomeKept(first, before, items, low);
    hide BlocksKept, KeptUpTo;
    forall j: nat, off: nat, t, v | Holds(first, j, off, t, v)
      ensures Holds(items, j, off, t, v)
    {
      assert first[j + 2].off == off;
      HoldsStill(first, items, low, j, off, t, v);
    }
  }

  lemma ArgumentsStay(b: Buffer, c: AState, ops: seq<Op>, u: AState, before: seq<Item>, items: seq<Item>, k: nat,
                      vals: seq<Value>)
    requires Wf(b, c) && c.frames != [] && RunsInside(b, c, ops, u, |c.frames|, 0)
    requires KeptUpTo(before, items, Lowest(b, c, ops))
    requires |u.frames| == |c.frames| && vals != [] && Cur(c).data.offArgs <= Cur(c).prevTop
    requires ArgsAt(b.sizes, before, k, Cur(c).data.offArgs, vals)
    ensures ArgsAt(b.sizes, items, k, Cur(u).data.offArgs, vals) && Cur(u).data.numArgs == Cur(c).data.numArgs
  {
    OutsideReadsAlike(b, c, ops, u, |c.frames|, 0, before, items);
    RunLeavesOutside(b, c, ops, u, |c.frames|, 0);
    hide Wf, RunsInside, Lowest, ArgsAt, KeptUpTo;
  }

  /** args have been pushed for the next call of the current function. */
  ghost predicate PassedSoFar(z: Sizes, items: seq<Item>, k: nat, s: AState, regs: seq<Value>, args: seq<nat>) {
    && s.frames != [] && Cur(s).data.regs == regs && Cur(s).data.numNextArgs == |args|
    && (forall i :: 0 <= i < |args| ==> args[i] < |regs|)
    && (args != [] ==> ArgsAt(z, items, k, Cur(s).data.offNextArgs, LastFirst(regs, args)))
  }

  lemma NoArgs(z: Sizes, items: seq<Item>, k: nat, s: AState, args: seq<nat>)
    requires s.frames != [] && Cur(s).data.numNextArgs == 0
    ensures PassedSoFar(z, items, k, s, Cur(s).data.regs, args[..0])
  {
  }

  /** A successful PUSHARG: the value directly follows the arguments pushed before it. */
  lemma PushFollows(b: Buffer, s: AState, reg: nat)
    requires Wf(b, s) && Step(b, s, PushOp(reg)).1 == Done
    requires Cur(s).data.numNextArgs > 0 ==> Cur(s).data.offNextArgs <= s.top
    ensures var (t, d) := (Step(b, s, PushOp(reg)).0, Cur(s).data);
            && t.frames != [] && reg < |d.regs| && Cur(t).data.regs == d.regs && Cur(t).data.offNextArgs == t.top
            && Cur(t).data.numNextArgs == d.numNextArgs + 1
            && (d.numNextArgs > 0 ==> t.top == d.offNextArgs + b.sizes.value && s.top <= d.offNextArgs)
  {
  }

  lemma OneMorePassed(b: Buffer, s: AState, m: Memory, before: seq<Item>, items: seq<Item>, k: nat, regs: seq<Value>,
                      args: seq<nat>, n: nat)
    returns (k2: nat)
    requires Wf(b, s) && n < |args| && Step(b, s, PushOp(args[n])).1 == Done
    requires PassedSoFar(b.sizes, before, k, s, regs, args[..n]) && Live(b, m, before) && Top(before) <= s.top
    requires BlocksKept(before, items) && |items| == |before| + 1 && args[n] < |regs|
    requires items[|before|] == Item(Step(b, s, PushOp(args[n])).0.top, Block(b.sizes.value, Argument(regs[args[n]])))
    ensures PassedSoFar(b.sizes, items, k2, Step(b, s, PushOp(args[n])).0, regs, args[..n + 1])
  {
    var (t, done, x) := (Step(b, s, PushOp(args[n])).0, args[..n], args[n]);
    k2 := |before|;
    assert args[..n + 1] == done + [x];
    OffsetBelow(b, s, m, before, k, regs, done);
    PushFollows(b, s, x);
    hide Wf, Step, Live, BlocksKept, Top;
    ArgsGrow(b, m, before, items, k, Cur(s).data.offNextArgs, t.top, regs, done, x);
  }

  lemma PassedMeans(z: Sizes, items: seq<Item>, k: nat, s: AState, regs: seq<Value>, args: seq<nat>)
    requires PassedSoFar(z, items, k, s, regs, args)
    ensures s.frames != [] && Cur(s).data.regs == regs && Cur(s).data.numNextArgs == |args|
  {
  }

  lemma OffsetBelow(b: Buffer, s: AState, m: Memory, items: seq<Item>, k: nat, regs: seq<Value>, args: seq<nat>)
    requires PassedSoFar(b.sizes, items, k, s, regs, args) && Live(b, m, items) && Top(items) <= s.top
    ensures Cur(s).data.numNextArgs > 0 ==> Cur(s).data.offNextArgs <= s.top
  {
    if args != [] {
      assert items[k] == Item(Cur(s).data.offNextArgs - 0 * b.sizes.value, items[k].cell);
      TopIsHighest(b, m, items, k);
    }
  }

  /** One more argument, directly after the ones before it, if there are any. */
  lemma ArgsGrow(buf: Buffer, m: Memory, a: seq<Item>, b: seq<Item>, k: nat, off: nat, off2: nat, regs: seq<Value>,
                 done: seq<nat>, x: nat)
    requires x < |regs| && (forall i :: 0 <= i < |done| ==> done[i] < |regs|) && Live(buf, m, a) && buf.sizes.value > 0
    requires done != [] ==>
               && ArgsAt(buf.sizes, a, k, off, LastFirst(regs, done)) && off2 == off + buf.sizes.value && Top(a) <= off
    requires BlocksKept(a, b) && |b| == |a| + 1 && b[|a|] == Item(off2, Block(buf.sizes.value, Argument(regs[x])))
    ensures ArgsAt(buf.sizes, b, |a|, off2, LastFirst(regs, done + [x]))
  {
    LastFirstSnoc(regs, done, x);
    var last := LastFirst(regs, done);
    assert done == [] <==> last == [];
    hide *;
    if done != [] {
      ArgJoins(buf, m, a, b, k, off, last, regs[x]);
    } else {
      assert [regs[x]] + last == [regs[x]];
      FirstArg(buf.sizes, b, |a|, off2, regs[x]);
    }
  }

  lemma FirstArg(z: Sizes, items: seq<Item>, k: nat, off: nat, v: Value)
    requires k < |items| && items[k] == Item(off, Block(z.value, Argument(v)))
    ensures ArgsAt(z, items, k, off, [v])
  {
  }

  /** The callee's arguments are the caller's pushed ones. */
  lemma CalleeSees(b: Buffer, s: AState, before: seq<Item>, items: seq<Item>, k: nat, regs: seq<Value>, args: seq<nat>,
                   f: FnInfo, out: nat)
    requires Wf(b, s) && GoodFn(f) && PassedSoFar(b.sizes, before, k, s, regs, args) && BlocksKept(before, items)
    requires FrameSpec.Call(b, s, f, out).1 == Done
    ensures var t := FrameSpec.Call(b, s, f, out).0;
            && t.frames != [] && Cur(t).data.numArgs == |args| && (forall i :: 0 <= i < |args| ==> args[i] < |regs|)
            && (args != [] ==> ArgsAt(b.sizes, items, k, Cur(t).data.offArgs, LastFirst(regs, args)))
  {
    CallEffect(b, s, f, out);
    if args != [] {
      ArgsKept(b.sizes, before, items, k, Cur(s).data.offNextArgs, LastFirst(regs, args));
    }
  }

  /** Which method is the step of which instruction. */
  lemma StepIs(b: Buffer, s: AState, i: Instruction)
    requires Wf(b, s) && Possible(s, OpOf(i))
    ensures |s.frames| > 0 && Step(b, s, OpOf(i)).0.frames != []
    ensures i.ENTER? ==> Step(b, s, OpOf(i)) == FrameSpec.Enter(b, s)
    ensures i.LEAVE? ==> Step(b, s, OpOf(i)) == FrameSpec.Leave(s, i.level)
    ensures i.LVAR? ==> OpOf(i) == LocalOp(SizeOf(i.t), SizeOf(i.t), i.reg)
    ensures i.PUSHARG? ==> OpOf(i) == PushOp(i.reg)
    ensures i.CALL? ==> GoodFn(i.fn) && Step(b, s, OpOf(i)) == FrameSpec.Call(b, s, i.fn, i.out)
    ensures i.RET? ==> |s.frames| > 1 && OpOf(i) == RetOp(Some(i.reg))
    ensures i.RETVOID? ==> |s.frames| > 1 && OpOf(i) == RetOp(None)
    ensures i.WRITE? ==> OpOf(i) == WriteOp(i.reg, i.value)
  {
    StepKeepsWf(b, s, OpOf(i));
  }

  lemma CanExecute(s: AState, i: Instruction)
    requires (i.CALL? ==> GoodFn(i.fn)) && (i.RET? || i.RETVOID? ==> |s.frames| > 1)
    ensures Possible(s, OpOf(i))
  {
  }

  lemma NoOps(code: seq<Instruction>)
    requires code == []
    ensures Ops(code) == []
  {
  }

  lemma NothingExecuted(b: Buffer, s: AState)
    requires Wf(b, s)
    ensures Executes(b, s, [], s, Done) && Lowest(b, s, []) == s.top
  {
  }

  /** A variable holds what was written to it last, and writing it changes no other variable. */
  lemma WritesOneVariable(items: seq<Item>, k: nat, off: nat, t: TypeId, value: Value)
    requires LocalAt(items, k, off, t) && value.Primitive? && value.valueType == t
    ensures var after := items[k := Item(off - 2, Block(SizeOf(t), Data(Encode(t, value.payload))))];
            && Holds(after, k, off, t, value)
            && forall j: nat, p: nat, u, v :: j != k && Holds(items, j, p, u, v) ==> Holds(after, j, p, u, v)
  {
    hide SizeOf;
  }
}
