/**
  pb_common.c: the cyclic field iterator, with the byte arithmetic by which it
  finds a field's data and size member in the message struct.
*/
module PbCommon {
  import opened PbTypes

  const SIZEOF_VOIDP: nat := 8

  // ----- the walk over the struct -----

  /** Bytes the member of field `f` takes in the struct. */
  function MemberSize(f: Field): nat {
    if f.atype.Static? && f.htype.Repeated? then f.dataSize * f.arraySize
    else if f.atype.Pointer? then SIZEOF_VOIDP
    else f.dataSize
  }

  /** Offset of the data of field `i`, walking from the start of the struct. */
  function OffsetOf(fields: seq<Field>, i: nat): nat
    requires i < |fields|
  {
    if i == 0 then fields[0].dataOffset
    else if SameUnion(fields[i - 1], fields[i]) then OffsetOf(fields, i - 1)
    else OffsetOf(fields, i - 1) + MemberSize(fields[i - 1]) + fields[i].dataOffset
  }

  /** Offset of the size member relative to the data; the members of a union use the
      first one's. */
  function SizeDelta(fields: seq<Field>, i: nat): int
    requires i < |fields|
  {
    if i > 0 && SameUnion(fields[i - 1], fields[i]) then SizeDelta(fields, i - 1)
    else fields[i].sizeOffset
  }

  /** `sizeof` of the member of field `f`: an array, a pointer or a value. */
  predicate HasSize(f: Field, size: nat) {
    match f.atype
    case Static => size == (if f.htype.Repeated? then f.dataSize * f.arraySize else f.dataSize)
    case Pointer => size == 8
    case Callback => size == f.dataSize
  }

  /** `PB_DATAOFFSET_FIRST`, `_OTHER` and `_UNION`: how the generator derives `data_offset`
      from the offsets and sizes of the struct members. */
  ghost predicate GeneratedFor(fields: seq<Field>, offsets: seq<nat>, sizes: seq<nat>) {
    && |fields| == |offsets| == |sizes|
    && (forall i :: 0 <= i < |fields| ==> HasSize(fields[i], sizes[i]))
    && (fields != [] ==> fields[0].dataOffset == offsets[0])
    && forall i :: 0 < i < |fields| ==>
      if fields[i].dataOffset == 0xFFFF_FFFF
      then fields[i - 1].htype.Oneof? && fields[i].htype.Oneof? && offsets[i] == offsets[i - 1]
      else offsets[i] == offsets[i - 1] + sizes[i - 1] + fields[i].dataOffset
  }

  /** The walk undoes the generator's arithmetic: it arrives at every member's offset. */
  lemma {:induction false} WalkFindsMember(fields: seq<Field>, offsets: seq<nat>, sizes: seq<nat>, i: nat)
    requires GeneratedFor(fields, offsets, sizes) && i < |fields|
    ensures OffsetOf(fields, i) == offsets[i]
  {
    if i > 0 {
      WalkFindsMember(fields, offsets, sizes, i - 1);
      assert HasSize(fields[i - 1], sizes[i - 1]);
    }
  }

  lemma {:induction false} OffsetMonotone(fields: seq<Field>, i: nat, j: nat)
    requires i <= j < |fields|
    requires forall k :: 0 <= k < |fields| ==> MemberSize(fields[k]) > 0
    ensures SlotOf(fields, i) == SlotOf(fields, j) ==> OffsetOf(fields, i) == OffsetOf(fields, j)
    ensures SlotOf(fields, i) < SlotOf(fields, j) ==> OffsetOf(fields, i) < OffsetOf(fields, j)
  {
    if i < j {
      SlotMonotone(fields, i, j - 1);
      OffsetMonotone(fields, i, j - 1);
    }
  }

  /** Two fields have the same address exactly when they share a cell of the model. */
  lemma CellIsAddress(fields: seq<Field>, i: nat, j: nat)
    requires i < |fields| && j < |fields|
    requires forall k :: 0 <= k < |fields| ==> MemberSize(fields[k]) > 0
    ensures OffsetOf(fields, i) == OffsetOf(fields, j) <==> SlotOf(fields, i) == SlotOf(fields, j)
  {
    var a, b := if i <= j then i else j, if i <= j then j else i;
    OffsetMonotone(fields, a, b);
    SlotMonotone(fields, a, b);
  }

  // ----- the iterator -----

  /** `pSize` points into the struct, or at the decoder's counter for fixed-count arrays. */
  datatype SizePtr = InStruct(address: int) | LocalCounter

  class FieldIter {
    const start: seq<Field>   // without the terminating entry
    const dest: int           // address of the struct
    var pos: nat
    var requiredFieldIndex: nat
    var pData: int
    var pSize: SizePtr

    ghost predicate Valid()
      reads this
    {
      && (start == [] ==> pos == 0 && requiredFieldIndex == 0)
      && (start != [] ==>
        && pos < |start|
        && requiredFieldIndex == RequiredBefore(start, pos)
        && pData == dest + OffsetOf(start, pos)
        && (pSize == InStruct(pData + SizeDelta(start, pos)) || (pSize == LocalCounter && start[pos].FixedCount())))
    }

    /** The tag at `pos`; the terminating entry has tag 0. */
    function Tag(): nat
      reads this
    {
      if pos < |start| then start[pos].tag else 0
    }

    /** `pb_field_iter_begin`. */
    constructor (fields: seq<Field>, destStruct: int)
      ensures start == fields && dest == destStruct
      ensures Valid() && pos == 0 && requiredFieldIndex == 0
      ensures fields != [] ==> pSize == InStruct(pData + fields[0].sizeOffset)
      ensures pSize != LocalCounter
    {
      start := fields;
      dest := destStruct;
      pos := 0;
      requiredFieldIndex := 0;
      pData := destStruct + (if fields != [] then fields[0].dataOffset else 0);
      pSize := InStruct(destStruct + (if fields != [] then fields[0].dataOffset + fields[0].sizeOffset else 0));
    }

    /** The part of `pb_field_iter_begin` that `pb_field_iter_next` repeats on wrapping. */
    method Restart()
      requires start != []
      modifies this
      ensures Valid() && pos == 0 && pSize == InStruct(pData + start[0].sizeOffset)
    {
      pos := 0;
      requiredFieldIndex := 0;
      pData := dest + start[0].dataOffset;
      pSize := InStruct(pData + start[0].sizeOffset);
    }

    /** `pb_field_iter_next`: on to the next field, or back to the first one. */
    method Next() returns (more: bool)
      requires Valid()
      modifies this
      ensures Valid()
      ensures more <==> old(pos) + 1 < |start|
      ensures pos == if more then old(pos) + 1 else 0
      ensures start != [] ==> pSize != LocalCounter
      ensures start == [] ==> pSize == old(pSize)
    {
      if Tag() == 0 && start == [] {
        return false;
      }
      ghost var i := pos;
      var prev := start[pos];
      pos := pos + 1;
      if pos == |start| {
        Restart();
        return false;
      }
      var prevSize := prev.dataSize;
      if SameUnion(prev, start[pos]) {
        return true;
      } else if prev.atype.Static? && prev.htype.Repeated? {
        prevSize := prevSize * prev.arraySize;
      } else if prev.atype.Pointer? {
        prevSize := SIZEOF_VOIDP;
      }
      if prev.htype.Required? {
        requiredFieldIndex := requiredFieldIndex + 1;
      }
      pData := pData + prevSize + start[pos].dataOffset;
      pSize := InStruct(pData + start[pos].sizeOffset);
      return true;
    }

    /** `pb_field_iter_find`: from any position, stops at the field with the tag if there is
        one, and otherwise ends where it began. */
    method Find(tag: nat) returns (found: bool)
      requires Valid()
      requires forall i :: 0 <= i < |start| ==> start[i].tag != 0
      modifies this
      ensures Valid()
      ensures start != [] ==> (found <==> exists i :: 0 <= i < |start| && start[i].tag == tag)
      ensures start == [] ==> (found <==> tag == 0)
      ensures found && start != [] ==> start[pos].tag == tag
      ensures !found ==> pos == old(pos)
      ensures pSize == LocalCounter ==> pos == old(pos) && old(pSize) == LocalCounter
    {
      var begin := pos;
      ghost var wrapped := false;
      while true
        invariant Valid()
        invariant start == [] ==> pos == begin && !wrapped
        invariant !wrapped ==> begin <= pos && forall i :: begin <= i < pos ==> start[i].tag != tag
        invariant wrapped ==> pos < begin < |start|
        invariant wrapped ==> forall i :: 0 <= i < pos || begin <= i < |start| ==> start[i].tag != tag
        invariant pSize == LocalCounter ==> pos == old(pos) && old(pSize) == LocalCounter
        decreases if wrapped then begin - pos else |start| + begin - pos
      {
        if Tag() == tag {
          return true;
        }
        var more := Next();
        if pos == begin {
          return false;
        }
        wrapped := wrapped || !more;
      }
    }
  }
}
