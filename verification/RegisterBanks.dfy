/** Where the registers of a function are (slake/rt/exec.cc, slake/obj/context.h). A bank is allocated for each kind
    of register, and a register is found from the offset of its bank.

    The byte of depth d is d below the upper end of the stack; addresses get lower as offsets and depths get higher. */
module RegisterBanks {
  import opened Wrappers
  import opened StackMemory
  import opened FrameSpec

  datatype Kind = Any | Object | ISize | USize | F64 | I64 | U64 | F32 | I32 | U32 | I16 | U16 | I8 | U8 | Bool

  /** The banks, in the order in which they are allocated. */
  const ORDER: seq<Kind> := [Any, Object, ISize, USize, F64, I64, U64, F32, I32, U32, I16, U16, I8, U8, Bool]

  type Counts = Kind -> nat

  function Size(z: Sizes, k: Kind): nat {
    match k
    case Any => z.value
    case Object | ISize | USize | F64 | I64 | U64 => 8
    case F32 | I32 | U32 => 4
    case I16 | U16 => 2
    case I8 | U8 | Bool => 1
  }

  function BankOf(z: Sizes, counts: Counts, k: Kind): BankInfo {
    BankInfo(counts(k), Size(z, k), if k == Any then z.valueAlign else Size(z, k))
  }

  /** A function with so many registers of each kind, for the making of its frame. */
  function RegularFn(z: Sizes, counts: Counts, initial: Value): (f: FnInfo)
    ensures GoodSizes(z) ==> GoodFn(f)
    ensures |f.banks| == |ORDER| && forall j :: 0 <= j < |ORDER| ==> f.banks[j] == BankOf(z, counts, ORDER[j])
  {
    FnInfo(seq(|ORDER|, j requires 0 <= j < |ORDER| => BankOf(z, counts, ORDER[j])), counts(Any), initial)
  }

  /** The top of the stack after the first n banks. */
  function TopAfter(b: Buffer, top: nat, counts: Counts, n: nat): (t: Option<nat>)
    requires GoodBuffer(b) && top <= b.size && n <= |ORDER|
    ensures t.Some? ==> top <= t.value <= b.size
  {
    BanksBump(b, top, RegularFn(b.sizes, counts, Zeroed), n)
  }

  /** The offset noted for a kind; 0 if there is none. */
  function Noted(bases: map<Kind, nat>, k: Kind): nat {
    if k in bases then bases[k] else 0
  }

  /** The offsets noted with the first n banks. That of the Object bank is noted for the kind Any. */
  function Bases(b: Buffer, top: nat, counts: Counts, n: nat): map<Kind, nat>
    requires GoodBuffer(b) && top <= b.size && n <= |ORDER| && TopAfter(b, top, counts, n).Some?
  {
    if n == 0 then map[] else
      var k := ORDER[n - 1];
      var before := Bases(b, top, counts, n - 1);
      if counts(k) == 0 then before else before[if k == Object then Any else k := TopAfter(b, top, counts, n).value]
  }

  /** Each bank is allocated on top of those before. */
  lemma NextTop(b: Buffer, top: nat, counts: Counts, n: nat)
    requires GoodBuffer(b) && top <= b.size && n < |ORDER|
    ensures var (t, bank) := (TopAfter(b, top, counts, n), BankOf(b.sizes, counts, ORDER[n]));
            && bank.count == counts(ORDER[n]) && bank.align > 0 && b.size <= b.address
            && TopAfter(b, top, counts, n + 1) ==
               if t.None? || bank.count == 0 then t
               else AlignedBump(b, t.value, bank.size * bank.count, bank.align)
  {
  }

  /** Allocates the banks of a function, and notes where they are. */
  method AllocRegisters(b: Buffer, top: nat, counts: Counts) returns (r: Option<nat>, bases: map<Kind, nat>)
    requires GoodBuffer(b) && top <= b.size
    ensures r == TopAfter(b, top, counts, |ORDER|)
    ensures r.Some? ==> bases == Bases(b, top, counts, |ORDER|)
  {
    hide *;
    TopAtFirst(b, top, counts);
    NoBase(b, top, counts);
    bases := map[];
    var stackTop := top;
    for n := 0 to |ORDER|
      invariant TopAfter(b, top, counts, n) == Some(stackTop) && stackTop <= b.size
      invariant bases == Bases(b, top, counts, n)
    {
      var k := ORDER[n];
      NextTop(b, top, counts, n);
      if counts(k) > 0 {
        var bank := BankOf(b.sizes, counts, k);
        var t := AlignedBump(b, stackTop, bank.size * bank.count, bank.align);
        if t.None? {
          NoneLater(b, top, counts, n + 1, |ORDER|);
          return None, bases;
        }
        stackTop := t.value;
        NextBase(b, top, counts, n);
        bases := bases[if k == Object then Any else k := stackTop];
      } else {
        NextBase(b, top, counts, n);
      }
    }
    r := Some(stackTop);
  }

  lemma TopAtFirst(b: Buffer, top: nat, counts: Counts)
    requires GoodBuffer(b) && top <= b.size
    ensures TopAfter(b, top, counts, 0) == Some(top)
  {
  }

  lemma {:induction false} NoneLater(b: Buffer, top: nat, counts: Counts, n: nat, m: nat)
    requires GoodBuffer(b) && top <= b.size && n <= m <= |ORDER| && TopAfter(b, top, counts, n).None?
    ensures TopAfter(b, top, counts, m).None?
    decreases m - n
  {
    if n < m {
      NoneLater(b, top, counts, n, m - 1);
      NextTop(b, top, counts, m - 1);
      hide *;
    }
  }

  // ----- Banks and registers

  /** The banks have been allocated. */
  ghost predicate Made(b: Buffer, top: nat, counts: Counts) {
    GoodBuffer(b) && top <= b.size && TopAfter(b, top, counts, |ORDER|).Some?
  }

  /** Where bank j is. */
  ghost function BankOffset(b: Buffer, top: nat, counts: Counts, j: nat): nat
    requires Made(b, top, counts) && j < |ORDER|
  {
    if TopAfter(b, top, counts, j + 1).Some? then TopAfter(b, top, counts, j + 1).value else 0
  }

  /** Where register i of bank j is taken to be. */
  ghost function RegisterOffset(b: Buffer, top: nat, counts: Counts, j: nat, i: nat): nat
    requires Made(b, top, counts) && j < |ORDER|
  {
    Noted(Bases(b, top, counts, |ORDER|), ORDER[j]) + Size(b.sizes, ORDER[j]) * i
  }

  ghost predicate InBank(b: Buffer, top: nat, counts: Counts, j: nat, i: nat)
    requires Made(b, top, counts) && j < |ORDER|
  {
    var (o, size) := (RegisterOffset(b, top, counts, j, i), Size(b.sizes, ORDER[j]));
    BankOffset(b, top, counts, j) - size * counts(ORDER[j]) <= o - size && o <= BankOffset(b, top, counts, j)
  }

  function Position(k: Kind): (j: nat)
    ensures j < |ORDER| && ORDER[j] == k
  {
    match k
    case Any => 0 case Object => 1 case ISize => 2 case USize => 3 case F64 => 4 case I64 => 5 case U64 => 6
    case F32 => 7 case I32 => 8 case U32 => 9 case I16 => 10 case U16 => 11 case I8 => 12 case U8 => 13 case Bool => 14
  }

  lemma PositionOf(j: nat)
    requires j < |ORDER|
    ensures Position(ORDER[j]) == j && |ORDER| == 15 && Position(Any) == 0 && Position(Object) == 1
  {
  }

  lemma {:induction false} TopsBefore(b: Buffer, top: nat, counts: Counts, n: nat, m: nat)
    requires GoodBuffer(b) && top <= b.size && n <= m <= |ORDER| && TopAfter(b, top, counts, m).Some?
    ensures TopAfter(b, top, counts, n).Some?
    ensures TopAfter(b, top, counts, n).value <= TopAfter(b, top, counts, m).value
    ensures n < m ==>
              TopAfter(b, top, counts, n).value + Size(b.sizes, ORDER[n]) * counts(ORDER[n])
              <= TopAfter(b, top, counts, m).value
    decreases m - n
  {
    hide *;
    if n < m {
      OneBank(b, top, counts, m - 1);
      TopsBefore(b, top, counts, n, m - 1);
    }
  }

  lemma OneBank(b: Buffer, top: nat, counts: Counts, n: nat)
    requires GoodBuffer(b) && top <= b.size && n < |ORDER| && TopAfter(b, top, counts, n + 1).Some?
    ensures TopAfter(b, top, counts, n).Some?
    ensures TopAfter(b, top, counts, n).value + Size(b.sizes, ORDER[n]) * counts(ORDER[n])
            <= TopAfter(b, top, counts, n + 1).value
  {
    NextTop(b, top, counts, n);
    hide TopAfter;
  }

  lemma NextBase(b: Buffer, top: nat, counts: Counts, n: nat)
    requires GoodBuffer(b) && top <= b.size && n < |ORDER| && TopAfter(b, top, counts, n + 1).Some?
    requires TopAfter(b, top, counts, n).Some?
    ensures var (k, bases) := (ORDER[n], Bases(b, top, counts, n));
            Bases(b, top, counts, n + 1) ==
            if counts(k) == 0 then bases
            else bases[if k == Object then Any else k := TopAfter(b, top, counts, n + 1).value]
  {
    hide TopAfter, GoodBuffer;
  }

  lemma NoBase(b: Buffer, top: nat, counts: Counts)
    requires GoodBuffer(b) && top <= b.size && TopAfter(b, top, counts, 0).Some?
    ensures Bases(b, top, counts, 0) == map[]
  {
  }

  lemma {:induction false} BasesAre(b: Buffer, top: nat, counts: Counts, n: nat, k: Kind)
    requires GoodBuffer(b) && top <= b.size && n <= |ORDER| && TopAfter(b, top, counts, n).Some?
    ensures var (bases, j) := (Bases(b, top, counts, n), Position(k));
            && (k == Object || j >= n ==> k !in bases)
            && (k != Object && j < n && (k == Any ==> n < 2 || counts(Object) == 0) && counts(k) > 0 ==>
                  TopAfter(b, top, counts, j + 1).Some? && Noted(bases, k) == TopAfter(b, top, counts, j + 1).value)
            && (k == Any && n >= 2 && counts(Object) > 0 ==>
                  TopAfter(b, top, counts, 2).Some? && Noted(bases, k) == TopAfter(b, top, counts, 2).value)
  {
    hide *;
    if n == 0 {
      NoBase(b, top, counts);
    } else {
      TopsBefore(b, top, counts, n - 1, n);
      BasesAre(b, top, counts, n - 1, k);
      NextBase(b, top, counts, n - 1);
      PositionOf(n - 1);
      NotedIs(Bases(b, top, counts, n), k);
      NotedIs(Bases(b, top, counts, n - 1), k);
    }
  }

  lemma NotedIs(bases: map<Kind, nat>, k: Kind)
    ensures Noted(bases, k) == if k in bases then bases[k] else 0
  {
  }

  /** A register is as far above its bank as its number says. */
  lemma FoundFromBank(b: Buffer, top: nat, counts: Counts, k: Kind, i: nat)
    requires Made(b, top, counts) && counts(k) > 0 && k != Object && (k == Any ==> counts(Object) == 0)
    ensures RegisterOffset(b, top, counts, Position(k), i) ==
            BankOffset(b, top, counts, Position(k)) + Size(b.sizes, k) * i
  {
    BasesAre(b, top, counts, |ORDER|, k);
    hide TopAfter, Bases, Position, GoodBuffer, Noted;
  }

  /** But one of the kind Any above the Object bank, if there is one. */
  lemma FoundFromObjects(b: Buffer, top: nat, counts: Counts, i: nat)
    requires Made(b, top, counts) && counts(Any) > 0 && counts(Object) > 0
    ensures RegisterOffset(b, top, counts, Position(Any), i) ==
            BankOffset(b, top, counts, Position(Object)) + Size(b.sizes, Any) * i
    ensures BankOffset(b, top, counts, Position(Any)) < BankOffset(b, top, counts, Position(Object))
  {
    PositionOf(0);
    BasesAre(b, top, counts, |ORDER|, Any);
    TopsBefore(b, top, counts, 2, |ORDER|);
    OneBank(b, top, counts, 1);
    hide TopAfter, Bases, Position, GoodBuffer, Noted;
  }

  /** The only register of its kind, or the first of more, is in its bank; the others of the kind, which have lower
      addresses the higher their numbers are, are not. The Object bank gets into the way of the kind Any. */
  lemma InBankExactly(b: Buffer, top: nat, counts: Counts, k: Kind, i: nat)
    requires Made(b, top, counts) && i < counts(k) && k != Object && GoodSizes(b.sizes)
    ensures InBank(b, top, counts, Position(k), i) <==> i == 0 && (k == Any ==> counts(Object) == 0)
  {
    SizeProduct(b.sizes, k, counts(k), i);
    if k == Any && counts(Object) > 0 {
      FoundFromObjects(b, top, counts, i);
    } else {
      FoundFromBank(b, top, counts, k, i);
    }
    hide TopAfter, Bases, Position, GoodBuffer, Made, BankOffset, RegisterOffset, Size;
  }

  lemma SizeProduct(z: Sizes, k: Kind, count: nat, i: nat)
    requires GoodSizes(z) && count > 0
    ensures Size(z, k) > 0 && Size(z, k) * count >= Size(z, k) && (i > 0 ==> Size(z, k) * i > 0)
    ensures Size(z, k) * 0 == 0
  {
    if i > 0 {
      assert Size(z, k) * i >= Size(z, k);
    }
    assert Size(z, k) * count >= Size(z, k);
  }

  /** The register is where its bank is, which for an Object register it never is if it is the first. */
  lemma FirstObjectOut(b: Buffer, top: nat, counts: Counts)
    requires Made(b, top, counts) && counts(Object) > 0
    ensures !InBank(b, top, counts, 1, 0) && RegisterOffset(b, top, counts, 1, 0) == 0
  {
    BasesAre(b, top, counts, |ORDER|, Object);
    TopsBefore(b, top, counts, 2, |ORDER|);
    OneBank(b, top, counts, 1);
    hide TopAfter, Bases, Position, GoodBuffer;
  }

  /** Every register is in its own bank if and only if the function has no Object register and no two registers of
      one kind. */
  lemma InBanksExactly(b: Buffer, top: nat, counts: Counts)
    requires Made(b, top, counts) && GoodSizes(b.sizes)
    ensures (forall k: Kind, i: nat :: i < counts(k) ==> InBank(b, top, counts, Position(k), i)) <==>
              counts(Object) == 0 && forall k :: counts(k) <= 1
  {
    PositionOf(0);
    hide InBank, TopAfter, Bases, Made;
    if counts(Object) > 0 {
      FirstObjectOut(b, top, counts);
      assert !InBank(b, top, counts, Position(Object), 0);
    } else {
      forall k: Kind, i: nat | i < counts(k)
        ensures InBank(b, top, counts, Position(k), i) <==> i == 0
      {
        InBankExactly(b, top, counts, k, i);
      }
      if k :| counts(k) > 1 {
        assert !InBank(b, top, counts, Position(k), 1);
      }
    }
  }

  /** Then no byte belongs to two registers, and all are between the old top of the stack and the new one. */
  lemma RegistersApart(b: Buffer, top: nat, counts: Counts, k: Kind, i: nat, l: Kind, j: nat, depth: int)
    requires Made(b, top, counts) && GoodSizes(b.sizes) && counts(Object) == 0 && forall m :: counts(m) <= 1
    requires i < counts(k) && j < counts(l)
    requires Covers(RegisterOffset(b, top, counts, Position(k), i), Size(b.sizes, k), depth)
    requires Covers(RegisterOffset(b, top, counts, Position(l), j), Size(b.sizes, l), depth)
    ensures k == l && i == j && top < depth <= TopAfter(b, top, counts, |ORDER|).value
  {
    AboveBefore(b, top, counts, k, depth);
    AboveBefore(b, top, counts, l, depth);
    var (m, n) := (Position(k), Position(l));
    if m < n {
      TopsBefore(b, top, counts, m + 1, n);
    } else if n < m {
      TopsBefore(b, top, counts, n + 1, m);
    }
    hide *;
  }

  /** The bytes of a bank are above the banks before. */
  lemma AboveBefore(b: Buffer, top: nat, counts: Counts, k: Kind, depth: int)
    requires Made(b, top, counts) && GoodSizes(b.sizes) && counts(k) == 1 && k != Object && counts(Object) == 0
    requires Covers(RegisterOffset(b, top, counts, Position(k), 0), Size(b.sizes, k), depth)
    ensures TopAfter(b, top, counts, Position(k)).Some? && TopAfter(b, top, counts, Position(k) + 1).Some?
    ensures top <= TopAfter(b, top, counts, Position(k)).value < depth
    ensures depth <= TopAfter(b, top, counts, Position(k) + 1).value <= TopAfter(b, top, counts, |ORDER|).value
  {
    FoundFromBank(b, top, counts, k, 0);
    SizeProduct(b.sizes, k, 1, 0);
    TopsBefore(b, top, counts, Position(k) + 1, |ORDER|);
    OneBank(b, top, counts, Position(k));
    hide TopAfter, Bases, Position, GoodBuffer, RegisterOffset, Size;
  }

  lemma {:induction false} BankAmong(b: Buffer, top: nat, counts: Counts, j: nat, n: nat)
    requires Made(b, top, counts) && GoodSizes(b.sizes) && j < n <= |ORDER| && counts(ORDER[j]) > 0
    ensures var (f, bank) := (RegularFn(b.sizes, counts, Zeroed), BankOf(b.sizes, counts, ORDER[j]));
            && BanksBump(b, top, f, n).Some? && TopAfter(b, top, counts, j + 1).Some?
            && Item(TopAfter(b, top, counts, j + 1).value, Block(bank.size * bank.count, Bank(bank.align)))
               in BankItems(b, top, f, n)
  {
    TopsBefore(b, top, counts, n, |ORDER|);
    if j < n - 1 {
      BankAmong(b, top, counts, j, n - 1);
    }
    hide GoodBuffer, Size, BankBump;
  }

  /** Then each register is a block on the stack by itself, one of those that Frames.Context.CreateMajorFrame puts
      there: no other thing on the stack has a byte of it. */
  lemma RegistersAreBlocks(b: Buffer, top: nat, counts: Counts, k: Kind)
    requires Made(b, top, counts) && GoodSizes(b.sizes) && counts(Object) == 0 && counts(k) == 1
    ensures var f := RegularFn(b.sizes, counts, Zeroed);
            && BanksBump(b, top, f, |ORDER|).Some?
            && Item(RegisterOffset(b, top, counts, Position(k), 0),
                    Block(Size(b.sizes, k), Bank(if k == Any then b.sizes.valueAlign else Size(b.sizes, k))))
               in BankItems(b, top, f, |ORDER|)
  {
    FoundFromBank(b, top, counts, k, 0);
    BankAmong(b, top, counts, Position(k), |ORDER|);
    SizeProduct(b.sizes, k, 1, 0);
    BankIs(b.sizes, counts, k);
    hide *;
  }

  lemma BankIs(z: Sizes, counts: Counts, k: Kind)
    ensures BankOf(z, counts, k) == BankInfo(counts(k), Size(z, k), if k == Any then z.valueAlign else Size(z, k))
  {
  }

  lemma {:induction false} NothingLater(b: Buffer, top: nat, counts: Counts, n: nat, m: nat)
    requires GoodBuffer(b) && top <= b.size && n <= m <= |ORDER|
    requires forall j :: n <= j < m ==> counts(ORDER[j]) == 0
    ensures TopAfter(b, top, counts, m) == TopAfter(b, top, counts, n)
    decreases m - n
  {
    if n < m {
      NothingLater(b, top, counts, n, m - 1);
      NextTop(b, top, counts, m - 1);
    }
    hide *;
  }

  /** Otherwise other things get into the way: whatever is allocated after the last bank shares a byte with its second
      register exactly when fewer bytes than the register has are left out for the alignment of the allocation. */
  lemma NextBlockOverlaps(b: Buffer, top: nat, counts: Counts, k: Kind, n: nat, align: nat, u: nat)
    requires Made(b, top, counts) && GoodSizes(b.sizes) && counts(k) > 1 && k != Object
    requires k == Any ==> counts(Object) == 0
    requires forall j :: Position(k) < j < |ORDER| ==> counts(ORDER[j]) == 0
    requires var t := TopAfter(b, top, counts, |ORDER|).value;
             align > 0 && n > 0 && t <= b.size <= b.address && AlignedBump(b, t, n, align) == Some(u)
    ensures var (o, size) := (RegisterOffset(b, top, counts, Position(k), 1), Size(b.sizes, k));
            (exists depth :: Covers(o, size, depth) && Covers(u, n, depth)) <==>
            (b.address - TopAfter(b, top, counts, |ORDER|).value) % align < size
  {
    FoundFromBank(b, top, counts, k, 1);
    NothingLater(b, top, counts, Position(k) + 1, |ORDER|);
    hide TopAfter, Bases, Position, GoodBuffer, RegisterOffset, Size, Noted;
    var (o, size, t) := (RegisterOffset(b, top, counts, Position(k), 1), Size(b.sizes, k),
      TopAfter(b, top, counts, |ORDER|).value);
    assert o == t + size && u == t + n + (b.address - t) % align;
    var depth := u - n + 1;
    assert (b.address - t) % align < size ==> Covers(o, size, depth) && Covers(u, n, depth);
  }
}
