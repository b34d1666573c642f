/** The interpreter's stack buffer (slake/obj/context.h, slake/obj/context.cc).

    The stack grows downwards; a stack offset counts bytes from its upper end. Memory holds typed
    cells, each at the offset of its lowest byte; storing a cell wipes out every cell it overlaps. */
module StackMemory {
  import opened Primitives

  const SIZE_MAX: nat := 0xFFFF_FFFF_FFFF_FFFF

  /** A register's content. The payload of a primitive value is one of its type. */
  datatype AnyValue = Zeroed | Invalid | LocalVarRef(off: nat) | Primitive(valueType: TypeId, payload: int)
                    | OtherValue(tag: int)

  type Value = v: AnyValue | v.Primitive? ==> InRange(v.valueType, v.payload) witness Zeroed

  /** What a major frame holds besides its links. */
  datatype FrameData = FrameData(
    offArgs: nat, numArgs: nat, offNextArgs: nat, offNextArgsBegin: nat, numNextArgs: nat,
    returnReg: nat, regs: seq<Value>)

  datatype MajorFrame = MajorFrame(offPrev: nat, offNext: nat, offCurMinor: nat, prevStackTop: nat, data: FrameData)

  datatype MinorFrame = MinorFrame(offLast: nat, offRecords: nat, stackBase: nat)

  /** The content of a plain block: a register bank or a local variable without a value, with the alignment that
      it asks for, an argument, or the bytes of a local variable, its modifier or its type. */
  datatype Content = Bank(align: nat) | Argument(value: Value) | Data(bytes: seq<Byte>) | Modifier(bits: nat)
                   | TypeTag(typeId: TypeId)

  datatype Cell = MajorCell(major: MajorFrame) | MinorCell(minor: MinorFrame) | RecordCell(offNext: nat, defReg: nat)
                | Block(size: nat, content: Content)

  /** Sizes and alignments that the platform gives to the structures on the stack. */
  datatype Sizes = Sizes(major: nat, majorAlign: nat, minor: nat, minorAlign: nat, record: nat, recordAlign: nat,
                         value: nat, valueAlign: nat)

  predicate GoodSizes(z: Sizes) {
    Fits(z.major, z.majorAlign) && Fits(z.minor, z.minorAlign) && Fits(z.record, z.recordAlign) && Fits(z.value,
        z.valueAlign)
  }

  function Extent(z: Sizes, c: Cell): nat {
    match c
    case MajorCell(_) => z.major
    case MinorCell(_) => z.minor
    case RecordCell(_, _) => z.record
    case Block(size, _) => size
  }

  /** What the address of a cell is asked to be a multiple of. */
  function Alignment(z: Sizes, c: Cell): nat {
    match c
    case MajorCell(_) => z.majorAlign
    case MinorCell(_) => z.minorAlign
    case RecordCell(_, _) => z.recordAlign
    case Block(size, content) =>
      match content
      case Bank(align) => align
      case Argument(_) => z.valueAlign
      case Data(_) => size
      case _ => 1
  }

  /** The stack buffer: its size, the address of its upper end, and the platform's sizes. */
  datatype Buffer = Buffer(size: nat, address: nat, sizes: Sizes)

  ghost predicate GoodBuffer(b: Buffer) {
    b.size < SIZE_MAX && b.size <= b.address && GoodSizes(b.sizes)
  }

  /** The address of the cell at off is a multiple of align. */
  ghost predicate AlignedAt(b: Buffer, off: nat, align: nat) {
    align > 0 && off <= b.address && (b.address - off) % align == 0
  }

  type Memory = map<nat, Cell>

  predicate Overlaps(z: Sizes, o: nat, c: Cell, off: nat, d: Cell) {
    o < off + Extent(z, c) && off < o + Extent(z, d)
  }

  function Store(z: Sizes, m: Memory, off: nat, c: Cell): Memory {
    (map o | o in m && !Overlaps(z, o, m[o], off, c) :: m[o])[off := c]
  }

  /** The n bytes that begin at offset o have the one of this depth, below the upper end of the stack, among them. */
  ghost predicate Covers(o: int, n: int, depth: int) {
    o - n < depth <= o
  }

  /** Storing a cell leaves exactly the other cells that have no byte of it. */
  lemma StoreExactly(z: Sizes, m: Memory, off: nat, c: Cell, o: nat)
    requires Extent(z, c) > 0 && (o in m ==> Extent(z, m[o]) > 0) && o != off
    ensures off in Store(z, m, off, c) && Store(z, m, off, c)[off] == c
    ensures o in Store(z, m, off, c) <==>
              o in m && !exists depth :: Covers(off, Extent(z, c), depth) && Covers(o, Extent(z, m[o]), depth)
    ensures o in Store(z, m, off, c) ==> Store(z, m, off, c)[o] == m[o]
  {
    if o in m && Overlaps(z, o, m[o], off, c) {
      var depth := if o < off then o else off;
      assert Covers(off, Extent(z, c), depth) && Covers(o, Extent(z, m[o]), depth);
    }
  }

  // ----- Live cells

  datatype Item = Item(off: nat, cell: Cell)

  /** The live cells in allocation order: present in memory, in the buffer, one above the other, and each at a
      multiple of its alignment. */
  ghost predicate Live(b: Buffer, m: Memory, items: seq<Item>) {
    && (forall k {:trigger items[k]} :: 0 <= k < |items| ==>
          && items[k].off in m && m[items[k].off] == items[k].cell
          && 0 < Extent(b.sizes, items[k].cell) <= items[k].off
          && AlignedAt(b, items[k].off, Alignment(b.sizes, items[k].cell)))
    && (forall i, j {:trigger items[i], items[j]} :: 0 <= i < j < |items| ==>
          items[i].off + Extent(b.sizes, items[j].cell) <= items[j].off)
  }

  /** No two live cells share a byte: offset o covers the bytes (o - extent, o]. */
  lemma LiveDisjoint(b: Buffer, m: Memory, items: seq<Item>, i: nat, j: nat)
    requires Live(b, m, items) && i < j < |items|
    ensures !Overlaps(b.sizes, items[i].off, items[i].cell, items[j].off, items[j].cell)
  {
  }

  /** The highest offset in use. */
  ghost function Top(items: seq<Item>): nat {
    if items == [] then 0 else items[|items| - 1].off
  }

  lemma TopIsHighest(b: Buffer, m: Memory, items: seq<Item>, k: nat)
    requires Live(b, m, items) && k < |items|
    ensures items[k].off <= Top(items)
  {
  }

  /** Storing above everything live adds a live cell. */
  lemma StoreAbove(b: Buffer, m: Memory, items: seq<Item>, off: nat, c: Cell)
    requires Live(b, m, items) && Extent(b.sizes, c) > 0 && Top(items) + Extent(b.sizes, c) <= off
    requires AlignedAt(b, off, Alignment(b.sizes, c))
    ensures Live(b, Store(b.sizes, m, off, c), items + [Item(off, c)])
  {
    var r := items + [Item(off, c)];
    forall k | 0 <= k < |items|
      ensures items[k].off in Store(b.sizes, m, off, c) && Store(b.sizes, m, off, c)[items[k].off] == items[k].cell
      ensures items[k].off + Extent(b.sizes, c) <= off
    {
      TopIsHighest(b, m, items, k);
    }
  }

  /** Storing a cell of the same extent over a live one replaces just that one. */
  lemma StoreOver(b: Buffer, m: Memory, items: seq<Item>, k: nat, c: Cell)
    requires Live(b, m, items) && k < |items| && Extent(b.sizes, c) == Extent(b.sizes, items[k].cell)
    requires Alignment(b.sizes, c) == Alignment(b.sizes, items[k].cell)
    ensures Live(b, Store(b.sizes, m, items[k].off, c), items[k := Item(items[k].off, c)])
  {
    forall i | 0 <= i < |items| && i != k
      ensures items[i].off in Store(b.sizes, m, items[k].off, c)
      ensures Store(b.sizes, m, items[k].off, c)[items[i].off] == items[i].cell
    {
      if i < k {
        LiveDisjoint(b, m, items, i, k);
      } else {
        LiveDisjoint(b, m, items, k, i);
      }
    }
  }

  lemma LivePrefix(b: Buffer, m: Memory, items: seq<Item>, n: nat)
    requires Live(b, m, items) && n <= |items|
    ensures Live(b, m, items[..n])
  {
  }

  // ----- Alignment

  /** The misalignment of the address is added to the size, so that the block that an aligned allocation yields is
      aligned exactly when its size is a multiple of the alignment. */
  lemma AlignedExactly(address: nat, top: nat, size: nat, align: nat)
    requires align > 0 && top <= address && top + size + (address - top) % align <= address
    ensures (address - (top + size + (address - top) % align)) % align == 0 <==> size % align == 0
  {
    var a := address - top;
    var q, d := a / align, a % align;
    assert a == q * align + d;
    assert a - d == q * align;
    MultipleMinus(q, size, align);
  }

  /** So many of a size that fits an alignment fit it too. */
  lemma MultipleFits(size: nat, count: nat, align: nat)
    requires Fits(size, align) && count > 0
    ensures Fits(size * count, align)
  {
    var q := size / align;
    assert size == q * align;
    assert size * count == (q * count) * align;
    MultipleOf(q * count, align);
  }

  lemma MultipleMinus(q: nat, size: nat, align: nat)
    requires align > 0 && size <= q * align
    ensures (q * align - size) % align == 0 <==> size % align == 0
  {
    var (k, r) := (size / align, size % align);
    assert size == k * align + r;
    if r == 0 {
      assert q * align - size == (q - k) * align;
      MultipleOf(q - k, align);
    } else {
      assert q * align - size == (q - k - 1) * align + (align - r);
      Remainder(q - k - 1, align, align - r);
    }
  }

  lemma MultipleOf(q: int, align: nat)
    requires align > 0
    ensures (q * align) % align == 0
  {
    Remainder(q, align, 0);
  }

  lemma Remainder(q: int, align: nat, r: nat)
    requires align > 0 && r < align
    ensures (q * align + r) % align == r
  {
    var x := q * align + r;
    assert x == (x / align) * align + x % align;
    var d := x / align - q;
    assert d * align == r - x % align;
    ProductAtLeast(d, align);
  }

  lemma ProductAtLeast(d: int, n: int)
    requires n >= 0
    ensures d == 0 || d * n >= n || d * n <= -n
  {
    if d >= 1 {
      assert d * n >= n;
    } else if d <= -1 {
      assert d * n <= -n;
    }
  }
}
