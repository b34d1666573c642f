/** The storage of static fields (slake/obj/module.cc). */
module StaticFields {
  import opened Layouts

  ghost predicate Misaligned(size: nat, alignment: nat) {
    alignment > 1 && size % alignment != 0
  }

  /** The bytes in the storage once the first n fields have been given room. */
  ghost function Room(extents: seq<Extent>, n: nat): nat
    requires n <= |extents|
  {
    if n == 0 then 0 else
      var (room, e) := (Room(extents, n - 1), extents[n - 1]);
      room + e.size + if Misaligned(room, e.alignment) then e.size + Padding(room, e.alignment) else 0
  }

  /** The sizes of the first n fields, one after the other. */
  ghost function Sum(extents: seq<Extent>, n: nat): nat
    requires n <= |extents|
  {
    if n == 0 then 0 else Sum(extents, n - 1) + extents[n - 1].size
  }

  class FieldStorage {
    var size: nat

    constructor ()
      ensures size == 0
    {
      size := 0;
    }

    /** Makes room for a field. The aligned start is computed, and then overwritten by the unaligned one;
        the size is added twice when they differ. */
    method AppendFieldSpace(fieldSize: nat, alignment: nat) returns (beginOff: nat)
      modifies this
      ensures beginOff == old(size)
      ensures size == old(size) + fieldSize
                      + if Misaligned(old(size), alignment) then fieldSize + Padding(old(size), alignment) else 0
    {
      var originalSize := size;
      var sizeIncrement: nat := 0;
      if alignment > 1 {
        var diff := originalSize % alignment;
        if diff != 0 {
          beginOff := originalSize + (alignment - diff);
          sizeIncrement := sizeIncrement + fieldSize + (alignment - diff);
        }
      }
      beginOff := originalSize;
      sizeIncrement := sizeIncrement + fieldSize;
      size := originalSize + sizeIncrement;
    }

    /** Gives every field its room anew. */
    method ReallocFieldSpaces(extents: seq<Extent>) returns (offsets: seq<nat>)
      modifies this
      ensures |offsets| == |extents| && size == Room(extents, |extents|)
      ensures forall k {:trigger offsets[k]} :: 0 <= k < |extents| ==> offsets[k] == Room(extents, k)
    {
      hide Padding, Misaligned;
      size := 0;
      offsets := [];
      for i := 0 to |extents|
        invariant |offsets| == i && size == Room(extents, i)
        invariant forall k {:trigger offsets[k]} :: 0 <= k < i ==> offsets[k] == Room(extents, k)
      {
        var off := AppendFieldSpace(extents[i].size, extents[i].alignment);
        offsets := offsets + [off];
      }
    }
  }

  /** No two fields share a byte, and all lie inside the storage. */
  lemma {:induction false} RoomsApart(extents: seq<Extent>, k: nat, n: nat)
    requires k < n <= |extents|
    ensures Room(extents, k) + extents[k].size <= Room(extents, n)
    decreases n
  {
    hide Padding, Misaligned;
    if k < n - 1 {
      RoomsApart(extents, k, n - 1);
    }
  }

  /** The first n fields start aligned. */
  ghost predicate StartAligned(extents: seq<Extent>, n: nat)
    requires n <= |extents|
  {
    forall k :: 0 <= k < n ==> !Misaligned(Room(extents, k), extents[k].alignment)
  }

  /** The sizes before each of the first n fields add up to a multiple of its alignment. */
  ghost predicate AddUpAligned(extents: seq<Extent>, n: nat)
    requires n <= |extents|
  {
    forall k :: 0 <= k < n ==> !Misaligned(Sum(extents, k), extents[k].alignment)
  }

  lemma AlignedStep(extents: seq<Extent>, n: nat)
    requires n < |extents|
    ensures StartAligned(extents, n + 1) <==>
              StartAligned(extents, n) && !Misaligned(Room(extents, n), extents[n].alignment)
    ensures AddUpAligned(extents, n + 1) <==>
              AddUpAligned(extents, n) && !Misaligned(Sum(extents, n), extents[n].alignment)
  {
    hide Room, Sum, Misaligned;
  }

  /** As long as every field starts aligned, the fields follow one another without gaps. */
  lemma {:induction false} RoomIsSum(extents: seq<Extent>, n: nat)
    requires n <= |extents|
    ensures StartAligned(extents, n) <==> AddUpAligned(extents, n)
    ensures StartAligned(extents, n) ==> Room(extents, n) == Sum(extents, n)
  {
    hide Padding, Misaligned, StartAligned, AddUpAligned;
    if n > 0 {
      RoomIsSum(extents, n - 1);
      AlignedStep(extents, n - 1);
    } else {
      NoFields(extents);
    }
  }

  lemma NoFields(extents: seq<Extent>)
    ensures StartAligned(extents, 0) && AddUpAligned(extents, 0)
  {
  }

  /** Every static field starts aligned exactly when the sizes of the fields before it already add up to
      a multiple of its alignment. */
  lemma StaticFieldsAlignedExactly(extents: seq<Extent>)
    ensures StartAligned(extents, |extents|) <==> AddUpAligned(extents, |extents|)
  {
    RoomIsSum(extents, |extents|);
  }

  /** A byte before a 32-bit field: the second field starts at offset 1. */
  lemma StaticFieldMisaligned()
    ensures var extents := [Extent(1, 1), Extent(4, 4)];
            Room(extents, 1) == 1 && Misaligned(Room(extents, 1), 4) && Room(extents, 2) == 12
  {
    var extents := [Extent(1, 1), Extent(4, 4)];
    assert Room(extents, 0) == 0;
    assert Room(extents, 1) == 1;
    assert Room(extents, 2) == 1 + 4 + 4 + 3;
  }
}
