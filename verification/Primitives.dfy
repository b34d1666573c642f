/** Types with values of a fixed size, and the bytes of their values (slake/runtime.cc, slake/rt/var_access.cc). */
module Primitives {

  datatype TypeId = I8 | I16 | I32 | I64 | U8 | U16 | U32 | U64 | F32 | F64 | Bool

  /** A size is a positive multiple of its alignment. */
  predicate Fits(size: nat, align: nat) {
    align > 0 && size > 0 && size % align == 0
  }

  /** Size and alignment of a primitive type. */
  function SizeOf(t: TypeId): (n: nat)
    ensures Fits(n, n) && n in {1, 2, 4, 8}
  {
    match t
    case I8 | U8 | Bool => 1
    case I16 | U16 => 2
    case I32 | U32 | F32 => 4
    case I64 | U64 | F64 => 8
  }

  // ----- Values

  /** The values of a type; those of a floating point type are its bit patterns. */
  predicate InRange(t: TypeId, v: int) {
    match t
    case I8 => -0x80 <= v < 0x80
    case I16 => -0x8000 <= v < 0x8000
    case I32 => -0x8000_0000 <= v < 0x8000_0000
    case I64 => -0x8000_0000_0000_0000 <= v < 0x8000_0000_0000_0000
    case U8 => 0 <= v < 0x100
    case U16 => 0 <= v < 0x1_0000
    case U32 | F32 => 0 <= v < 0x1_0000_0000
    case U64 | F64 => 0 <= v < 0x1_0000_0000_0000_0000
    case Bool => 0 <= v < 2
  }

  predicate IsSigned(t: TypeId) {
    t in {I8, I16, I32, I64}
  }

  type Byte = x: int | 0 <= x < 0x100

  /** How many values n bytes can have. */
  function Power(n: nat): (p: nat)
    ensures p > 0
  {
    if n == 0 then 1 else 0x100 * Power(n - 1)
  }

  lemma Powers()
    ensures Power(1) == 0x100 && Power(2) == 0x1_0000 && Power(4) == 0x1_0000_0000
    ensures Power(8) == 0x1_0000_0000_0000_0000
  {
    assert Power(3) == 0x100_0000 && Power(5) == 0x100_0000_0000 && Power(6) == 0x1_0000_0000_0000;
    assert Power(7) == 0x100_0000_0000_0000;
  }

  /** The lowest n bytes of a number, the lowest first. */
  function ToBytes(v: nat, n: nat): (bs: seq<Byte>)
    ensures |bs| == n
  {
    if n == 0 then [] else [v % 0x100] + ToBytes(v / 0x100, n - 1)
  }

  function FromBytes(bs: seq<Byte>): (v: nat)
    ensures v < Power(|bs|)
  {
    if bs == [] then 0 else bs[0] + 0x100 * FromBytes(bs[1..])
  }

  lemma {:induction false} BytesBack(v: nat, n: nat)
    requires v < Power(n)
    ensures FromBytes(ToBytes(v, n)) == v
  {
    if n > 0 {
      BytesBack(v / 0x100, n - 1);
      assert ToBytes(v, n)[1..] == ToBytes(v / 0x100, n - 1);
    }
  }

  lemma {:induction false} NumberBack(bs: seq<Byte>)
    ensures ToBytes(FromBytes(bs), |bs|) == bs
  {
    if bs != [] {
      NumberBack(bs[1..]);
      var v := FromBytes(bs[1..]);
      assert (bs[0] + 0x100 * v) % 0x100 == bs[0] && (bs[0] + 0x100 * v) / 0x100 == v;
    }
  }

  /** The bytes of a value: two's complement for the signed types. */
  function Encode(t: TypeId, v: int): (bs: seq<Byte>)
    requires InRange(t, v)
    ensures |bs| == SizeOf(t)
  {
    ToBytes(if v < 0 then v + Modulus(t) else v, SizeOf(t))
  }

  /** One more than the largest number that fits in as many bytes as a value has. */
  function Modulus(t: TypeId): (m: nat)
    ensures forall v :: InRange(t, v) && v < 0 ==> 0 <= v + m
  {
    Powers();
    Power(SizeOf(t))
  }

  function Decode(t: TypeId, bs: seq<Byte>): int
    requires |bs| == SizeOf(t)
  {
    var v := FromBytes(bs);
    if IsSigned(t) && 2 * v >= Modulus(t) then v - Modulus(t) else v
  }

  /** A value takes SizeOf(t) bytes, and they say which value it is. */
  lemma RoundTrip(t: TypeId, v: int)
    requires InRange(t, v)
    ensures |Encode(t, v)| == SizeOf(t) && Decode(t, Encode(t, v)) == v
  {
    Powers();
    BytesBack(if v < 0 then v + Modulus(t) else v, SizeOf(t));
  }

  /** And any bytes of that number are a value, but for a truth value. */
  lemma BytesAreValues(t: TypeId, bs: seq<Byte>)
    requires |bs| == SizeOf(t) && t != Bool
    ensures InRange(t, Decode(t, bs)) && Encode(t, Decode(t, bs)) == bs
  {
    Powers();
    NumberBack(bs);
  }

  // ----- No smaller size does

  /** What f names with the first n numbers. */
  ghost function Named(f: nat -> int, n: nat): set<int> {
    if n == 0 then {} else Named(f, n - 1) + {f(n - 1)}
  }

  ghost function Interval(lo: int, m: nat): set<int> {
    if m == 0 then {} else Interval(lo, m - 1) + {lo + m - 1}
  }

  lemma {:induction false} NamedSize(f: nat -> int, n: nat)
    ensures |Named(f, n)| <= n && forall k :: 0 <= k < n ==> f(k) in Named(f, n)
  {
    if n > 0 {
      NamedSize(f, n - 1);
    }
  }

  lemma {:induction false} IntervalSize(lo: int, m: nat)
    ensures |Interval(lo, m)| == m && forall v :: v in Interval(lo, m) <==> lo <= v < lo + m
  {
    if m > 0 {
      IntervalSize(lo, m - 1);
    }
  }

  /** n numbers name no more than n things. */
  lemma NoMoreNames(f: nat -> int, n: nat, lo: int, m: nat)
    requires Interval(lo, m) <= Named(f, n)
    ensures m <= n
  {
    NamedSize(f, n);
    IntervalSize(lo, m);
    assert Named(f, n) == Interval(lo, m) + (Named(f, n) - Interval(lo, m));
  }

  /** However the bytes are read, with fewer of them some value of the type has none. */
  lemma NoSmallerSize(t: TypeId, n: nat, read: seq<Byte> -> int)
    requires n in {1, 2, 4, 8}
    requires forall v :: InRange(t, v) ==> exists bs :: |bs| == n && read(bs) == v
    ensures SizeOf(t) <= n
  {
    Powers();
    if n < SizeOf(t) {
      var lo := if IsSigned(t) then -(Modulus(t) / 2) else 0;
      var f := (k: nat) => read(ToBytes(k, n));
      NamedSize(f, Power(n));
      IntervalSize(lo, Modulus(t));
      forall v | v in Interval(lo, Modulus(t))
        ensures v in Named(f, Power(n))
      {
        assert InRange(t, v);
        var bs :| |bs| == n && read(bs) == v;
        NumberBack(bs);
        assert f(FromBytes(bs)) == v;
      }
      NoMoreNames(f, Power(n), lo, Modulus(t));
    }
  }
}
