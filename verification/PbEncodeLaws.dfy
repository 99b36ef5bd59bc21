/**
  What the encoder writes, in terms of the wire format: the records of a message in
  the order of its fields, with the payloads that the Protocol Buffers
  specification gives to each type.  A receiver that knows none of the fields skips
  every one of these records.
*/
module PbEncodeLaws {
  import opened Bits
  import opened PbWire
  import opened PbTypes
  import opened PbEncodeSpec
  import opened PbDecodeSpec
  import opened PbRuns
  import opened PbRoundTrip
  import opened PbWireFormat

  // ----- the records of a message -----

  /** The types that a packed array can have. */
  predicate Numeric(l: LType) {
    !l.LBytes? && !l.LString? && !l.LFixedLengthBytes? && !l.LSubmessage?
  }

  /** A negative `int32` is written in 64-bit two's complement, a negative `sint32` as an odd
      number. */
  ghost function ScalarPayload(f: Field, v: Value): Payload
    requires FaithfulScalar(f, v)
  {
    match f.ltype
    case LBool => Varint(if v.b then 1 else 0)
    case LVarint => Varint(if v.i < 0 then 0x1_0000_0000_0000_0000 + v.i else v.i)
    case LUvarint => Varint(v.i)
    case LSvarint => Varint(if v.i < 0 then -2 * v.i - 1 else 2 * v.i)
    case LFixed32 => Fixed32(v.i)
    case LFixed64 => Fixed64(v.i)
    case _ => Len(v.bytes)
  }

  /** The payloads of a packed array, one behind the other. */
  ghost function PackedBytes(f: Field, items: seq<Value>): seq<byte>
    requires forall k :: 0 <= k < |items| ==> FaithfulScalar(f, items[k])
  {
    if items == [] then []
    else PayloadBytes(ScalarPayload(f, items[0])) + PackedBytes(f, items[1..])
  }

  ghost function ValuePayload(env: StaticSchema, m: nat, f: Field, v: Value): Payload
    requires StaticOk(m, f) && m <= |env| && FaithfulValue(env, m, f, v)
    decreases m, 0, 0
  {
    if f.ltype.LSubmessage? then Len(Stream(Records(env, f.ptr.id, v.cells))) else ScalarPayload(f, v)
  }

  ghost function EntryRecords(env: StaticSchema, m: nat, f: Field, items: seq<Value>): seq<Record>
    requires StaticOk(m, f) && m <= |env|
    requires forall k :: 0 <= k < |items| ==> FaithfulValue(env, m, f, items[k])
    decreases m, 1, |items|
  {
    if items == [] then []
    else [Record(f.tag, ValuePayload(env, m, f, items[0]))] + EntryRecords(env, m, f, items[1..])
  }

  predicate EmptyArray(f: Field) {
    f.FixedCount() && f.arraySize == 0
  }

  /** A fixed-count array without entries is there although it has no record. */
  predicate HasEmptyArray(fields: seq<Field>) {
    exists i: nat :: i < |fields| && EmptyArray(fields[i])
  }

  /** The zero value, which a singular field without has_ member does not write; for a message
      that is one without anything to write. */
  ghost predicate ZeroValued(env: StaticSchema, m: nat, f: Field, v: Value)
    requires StaticOk(m, f) && m <= |env| && FaithfulValue(env, m, f, v)
    decreases m, 0, 0
  {
    match v
    case VBool(b) => !b
    case VInt(i) => i == 0
    case VBytes(b) => b == []
    case VMsg(cells) => Records(env, f.ptr.id, cells) == [] && !HasEmptyArray(env[f.ptr.id])
  }

  ghost function FieldRecords(env: StaticSchema, m: nat, f: Field, cell: Cell): seq<Record>
    requires StaticOk(m, f) && m <= |env| && FaithfulCell(env, m, f, cell)
    decreases m, 2, 0
  {
    match f.htype
    case Required => [Record(f.tag, ValuePayload(env, m, f, cell.v))]
    case Optional =>
      if cell == Opt(false, cell.v) || (f.sizeOffset == 0 && ZeroValued(env, m, f, cell.v)) then []
      else [Record(f.tag, ValuePayload(env, m, f, cell.v))]
    case Repeated =>
      if cell.items == [] then []
      else if Numeric(f.ltype) then
        assert forall k :: 0 <= k < |cell.items| ==> FaithfulValue(env, m, f, cell.items[k]);
        [Record(f.tag, Len(PackedBytes(f, cell.items)))]
      else EntryRecords(env, m, f, cell.items)
    case Oneof =>
      if cell.Union? && cell.which == f.tag then [Record(f.tag, ValuePayload(env, m, f, cell.v))] else []
  }

  ghost function RecordsAt(env: StaticSchema, m: nat, cells: seq<Cell>, i: nat): seq<Record>
    requires m < |env| && i < |env[m]| && Faithful(env, m, cells)
    decreases m, 3, 0
  {
    StaticField(env, m, i);
    assert FaithfulAt(env, m, cells, i);
    FieldRecords(env, m, env[m][i], CellAt(cells, SlotOf(env[m], i)))
  }

  ghost function RecordsFrom(env: StaticSchema, m: nat, cells: seq<Cell>, i: nat): seq<Record>
    requires m < |env| && i <= |env[m]| && Faithful(env, m, cells)
    decreases m, 4, |env[m]| - i
  {
    if i == |env[m]| then [] else RecordsAt(env, m, cells, i) + RecordsFrom(env, m, cells, i + 1)
  }

  /** All records of a message. */
  ghost function Records(env: StaticSchema, m: nat, cells: seq<Cell>): seq<Record>
    requires m < |env| && Faithful(env, m, cells)
    decreases m, 5, 0
  {
    RecordsFrom(env, m, cells, 0)
  }

  // ----- scalars -----

  lemma ScalarWritten(f: Field, v: Value)
    requires FaithfulScalar(f, v) && EncodeScalar(f, v).ok && f.dataSize <= PB_SIZE_MAX
    ensures EncodeScalar(f, v).bytes == PayloadBytes(ScalarPayload(f, v))
    ensures WireTypeOf(f.ltype) == WireNumber(ScalarPayload(f, v))
  {
    hide VarintBytes, FixedBytes, LowByteFirst;
    match f.ltype
    case LFixed32 => FixedIsLowFirst(v.i, 4);
    case LFixed64 => FixedIsLowFirst(v.i, 8);
    case LString => WholeString(v.bytes, f.dataSize);
    case LVarint => WordOfSigned(v.i);
    case _ =>
  }

  lemma WordOfSigned(i: int)
    requires -0x8000_0000_0000_0000 <= i < 0x8000_0000_0000_0000
    ensures Word64(i) == if i < 0 then 0x1_0000_0000_0000_0000 + i else i
  {
  }

  /** A string without NUL that ends before its buffer does is written to its end. */
  lemma WholeString(b: seq<byte>, max: nat)
    requires |b| < max && forall i :: 0 <= i < |b| ==> b[i] != 0
    ensures b[..StrLen(b, max)] == b
  {
    assert StrLen(b, max) == |b|;
  }

  lemma {:induction false} PackedWritten(f: Field, items: seq<Value>, k: nat)
    requires f.dataSize <= PB_SIZE_MAX && k <= |items|
    requires forall j :: 0 <= j < |items| ==> FaithfulScalar(f, items[j])
    requires EncodePackedFrom(f, items, k).ok
    ensures EncodePackedFrom(f, items, k).bytes == PackedBytes(f, items[k..])
    decreases |items| - k
  {
    hide FaithfulScalar, EncodeScalar, ScalarPayload;
    if k < |items| {
      ScalarWritten(f, items[k]);
      PackedWritten(f, items, k + 1);
      assert items[k..][1..] == items[k + 1..];
    }
  }

  // ----- what is not written -----

  lemma ScalarZero(env: StaticSchema, m: nat, f: Field, v: Value)
    requires StaticOk(m, f) && m <= |env| && !f.ltype.LSubmessage? && FaithfulScalar(f, v)
    ensures ScalarIsZero(f, v) <==> ZeroValued(env, m, f, v)
  {
    hide MemberBytes, HasRoom, AllZero, StrLen;
    if v.VInt? || v.VBool? {
      ZeroMember(f, v);
    }
  }

  ghost predicate DefaultAt(env: StaticSchema, m: nat, cells: seq<Cell>, i: nat)
    requires m < |env| && i < |env[m]|
  {
    StaticField(env, m, i);
    IsDefault(env, m, env[m][i], CellAt(cells, SlotOf(env[m], i)))
  }

  lemma {:induction false} AllDefaultIff(env: StaticSchema, m: nat, cells: seq<Cell>, i: nat)
    requires m < |env| && i <= |env[m]|
    ensures AllDefaultFrom(env, m, cells, i) <==> forall j: nat | i <= j < |env[m]| :: DefaultAt(env, m, cells, j)
    decreases |env[m]| - i
  {
    hide IsDefault;
    if i < |env[m]| {
      AllDefaultIff(env, m, cells, i + 1);
      assert AllDefaultFrom(env, m, cells, i) <==> DefaultAt(env, m, cells, i) && AllDefaultFrom(env, m, cells, i + 1);
    }
  }

  /** Field `i` has no record. */
  ghost predicate Silent(env: StaticSchema, m: nat, cells: seq<Cell>, i: nat)
    requires m < |env| && i < |env[m]| && Faithful(env, m, cells)
  {
    RecordsAt(env, m, cells, i) == []
  }

  lemma RecordsStep(env: StaticSchema, m: nat, cells: seq<Cell>, i: nat)
    requires m < |env| && i <= |env[m]| && Faithful(env, m, cells)
    ensures RecordsFrom(env, m, cells, i) ==
            if i == |env[m]| then [] else RecordsAt(env, m, cells, i) + RecordsFrom(env, m, cells, i + 1)
  {
    hide Faithful, RecordsAt;
  }

  lemma {:induction false} NoRecordsIff(env: StaticSchema, m: nat, cells: seq<Cell>, i: nat)
    requires m < |env| && i <= |env[m]| && Faithful(env, m, cells)
    ensures RecordsFrom(env, m, cells, i) == [] <==> forall j: nat | i <= j < |env[m]| :: Silent(env, m, cells, j)
    decreases |env[m]| - i
  {
    hide RecordsAt, RecordsFrom, Faithful, Silent;
    RecordsStep(env, m, cells, i);
    if i < |env[m]| {
      NoRecordsIff(env, m, cells, i + 1);
      SilentIff(env, m, cells, i);
      ConcatEmpty(RecordsAt(env, m, cells, i), RecordsFrom(env, m, cells, i + 1));
    }
  }

  lemma SilentIff(env: StaticSchema, m: nat, cells: seq<Cell>, i: nat)
    requires m < |env| && i < |env[m]| && Faithful(env, m, cells)
    ensures Silent(env, m, cells, i) <==> RecordsAt(env, m, cells, i) == []
  {
    hide RecordsAt, Faithful;
  }

  lemma ConcatEmpty<T>(a: seq<T>, b: seq<T>)
    ensures a + b == [] <==> a == [] && b == []
  {
    assert |a + b| == |a| + |b|;
  }

  /** Outside unions, the proto3 test holds of a field exactly when it has no record and is not
      an empty fixed-count array. */
  lemma {:induction false} FieldDefault(env: StaticSchema, m: nat, f: Field, cell: Cell)
    requires StaticOk(m, f) && m <= |env| && FaithfulCell(env, m, f, cell) && !f.htype.Oneof?
    ensures IsDefault(env, m, f, cell) <==> FieldRecords(env, m, f, cell) == [] && !EmptyArray(f)
    decreases m, 0
  {
    hide ScalarIsZero, Stream, PackedBytes, FaithfulScalar, Records, AllDefaultFrom, HasEmptyArray;
    if f.htype.Optional? && f.sizeOffset == 0 {
      if f.ltype.LSubmessage? {
        MessageDefault(env, f.ptr.id, cell.v.cells);
      } else {
        ScalarZero(env, m, f, cell.v);
      }
    }
  }

  lemma MemberRecord(env: StaticSchema, m: nat, f: Field, cell: Cell)
    requires StaticOk(m, f) && m <= |env| && FaithfulCell(env, m, f, cell) && f.htype.Oneof?
    requires cell.Union? && cell.which == f.tag
    ensures |FieldRecords(env, m, f, cell)| == 1
  {
    hide FaithfulValue, ValuePayload;
  }

  lemma OwnMember(env: StaticSchema, m: nat, cells: seq<Cell>, i: nat)
    requires m < |env| && i < |env[m]| && Faithful(env, m, cells) && env[m][i].htype.Oneof?
    requires CellAt(cells, SlotOf(env[m], i)).Union? && CellAt(cells, SlotOf(env[m], i)).which == env[m][i].tag
    ensures !Silent(env, m, cells, i)
  {
    StaticField(env, m, i);
    assert FaithfulAt(env, m, cells, i);
    hide FaithfulCell, FieldRecords;
    MemberRecord(env, m, env[m][i], CellAt(cells, SlotOf(env[m], i)));
  }

  lemma UnionDefault(env: StaticSchema, m: nat, cells: seq<Cell>, i: nat)
    requires m < |env| && i < |env[m]| && Faithful(env, m, cells) && env[m][i].htype.Oneof?
    ensures DefaultAt(env, m, cells, i) ==> Silent(env, m, cells, i)
    ensures (forall j: nat | j < |env[m]| :: Silent(env, m, cells, j)) ==> DefaultAt(env, m, cells, i)
  {
    var slot := SlotOf(env[m], i);
    StaticField(env, m, i);
    assert FaithfulAt(env, m, cells, i);
    if CellAt(cells, slot).Union? {
      assert UnionKnown(env[m], cells, slot);
      var j: nat :| j < |env[m]| && SlotOf(env[m], j) == slot && env[m][j].htype.Oneof? && env[m][j].tag == cells[slot].which;
      OwnMember(env, m, cells, j);
    }
  }

  lemma {:induction false} DefaultsHere(env: StaticSchema, m: nat, cells: seq<Cell>, i: nat)
    requires m < |env| && i < |env[m]| && Faithful(env, m, cells)
    ensures DefaultAt(env, m, cells, i) ==> Silent(env, m, cells, i) && !EmptyArray(env[m][i])
    ensures (forall j: nat | j < |env[m]| :: Silent(env, m, cells, j)) && !EmptyArray(env[m][i]) ==>
              DefaultAt(env, m, cells, i)
    decreases m, 1
  {
    if env[m][i].htype.Oneof? {
      UnionDefault(env, m, cells, i);
    } else {
      StaticField(env, m, i);
      assert FaithfulAt(env, m, cells, i);
      var f, cell := env[m][i], CellAt(cells, SlotOf(env[m], i));
      FieldDefault(env, m, f, cell);
      assert Silent(env, m, cells, i) <==> FieldRecords(env, m, f, cell) == [];
      assert DefaultAt(env, m, cells, i) == IsDefault(env, m, f, cell);
    }
  }

  /** The proto3 test holds of a message exactly when it has no records and no empty
      fixed-count array. */
  lemma {:induction false} MessageDefault(env: StaticSchema, m: nat, cells: seq<Cell>)
    requires m < |env| && Faithful(env, m, cells)
    ensures AllDefaultFrom(env, m, cells, 0) <==> Records(env, m, cells) == [] && !HasEmptyArray(env[m])
    decreases m, 2
  {
    hide Silent, DefaultAt, AllDefaultFrom, RecordsFrom, Faithful;
    AllDefaultIff(env, m, cells, 0);
    NoRecordsIff(env, m, cells, 0);
    forall i: nat | i < |env[m]|
      ensures DefaultAt(env, m, cells, i) ==> Silent(env, m, cells, i) && !EmptyArray(env[m][i])
      ensures (forall j: nat | j < |env[m]| :: Silent(env, m, cells, j)) && !EmptyArray(env[m][i]) ==>
                DefaultAt(env, m, cells, i)
    {
      DefaultsHere(env, m, cells, i);
    }
    if Records(env, m, cells) == [] && !HasEmptyArray(env[m]) {
      assert forall j: nat | j < |env[m]| :: Silent(env, m, cells, j);
    }
  }

  // ----- records -----

  lemma RecordWritten(tag: nat, w: nat, p: Payload, payload: seq<byte>)
    requires tag < 0x2000_0000 && w == WireNumber(p) && payload == PayloadBytes(p)
    ensures TagBytes(w, tag) + payload == Wire(Record(tag, p))
  {
  }

  lemma {:induction false} ValueWritten(env: StaticSchema, m: nat, f: Field, v: Value)
    requires StaticOk(m, f) && m <= |env| && FaithfulValue(env, m, f, v) && EncodeRecord(env, m, f, v).ok
    ensures EncodeRecord(env, m, f, v).bytes == Wire(Record(f.tag, ValuePayload(env, m, f, v)))
    decreases m, 0, 0
  {
    var p := ValuePayload(env, m, f, v);
    if f.ltype.LSubmessage? {
      EncodesRecords(env, f.ptr.id, v.cells);
    } else {
      ScalarWritten(f, v);
    }
    hide EncodeMsg, PayloadBytes, EncodeScalar, ScalarPayload;
    RecordWritten(f.tag, WireTypeOf(f.ltype), p, EncodeValue(env, m, f, v).bytes);
  }

  lemma {:induction false} EntriesWritten(env: StaticSchema, m: nat, f: Field, items: seq<Value>, k: nat)
    requires StaticOk(m, f) && m <= |env| && k <= |items|
    requires forall j :: 0 <= j < |items| ==> FaithfulValue(env, m, f, items[j])
    requires EncodeUnpackedFrom(env, m, f, items, k).ok
    ensures EncodeUnpackedFrom(env, m, f, items, k).bytes == Stream(EntryRecords(env, m, f, items[k..]))
    decreases m, 1, |items| - k
  {
    hide FaithfulValue, EncodeRecord, ValuePayload, Wire;
    if k < |items| {
      ValueWritten(env, m, f, items[k]);
      EntriesWritten(env, m, f, items, k + 1);
      assert items[k..][1..] == items[k + 1..];
    }
  }

  lemma PackedFieldWritten(env: StaticSchema, m: nat, f: Field, cell: Cell)
    requires StaticOk(m, f) && m <= |env| && FaithfulCell(env, m, f, cell)
    requires f.htype.Repeated? && cell.items != [] && Numeric(f.ltype)
    requires EncodePacked(f, cell.items).ok
    ensures EncodePacked(f, cell.items).bytes == Stream(FieldRecords(env, m, f, cell))
  {
    forall k | 0 <= k < |cell.items| ensures FaithfulScalar(f, cell.items[k]) {
      assert FaithfulValue(env, m, f, cell.items[k]);
    }
    PackedWritten(f, cell.items, 0);
    assert cell.items[0..] == cell.items;
    var data := PackedBytes(f, cell.items);
    RecordWritten(f.tag, WT_STRING, Len(data), Delimited(data));
    StreamOne(Record(f.tag, Len(data)));
  }

  lemma {:induction false} FieldWritten(env: StaticSchema, m: nat, f: Field, cell: Cell)
    requires StaticOk(m, f) && m <= |env| && FaithfulCell(env, m, f, cell)
    requires EncodeField(env, m, f, cell).ok
    ensures EncodeField(env, m, f, cell).bytes == Stream(FieldRecords(env, m, f, cell))
    decreases m, 2, 0
  {
    hide FaithfulValue, EncodeRecord, ValuePayload, Wire, EncodePacked, EntryRecords, EncodeUnpackedFrom, IsDefault;
    if f.htype.Repeated? {
      if cell.items != [] {
        if Numeric(f.ltype) {
          PackedFieldWritten(env, m, f, cell);
        } else {
          EntriesWritten(env, m, f, cell.items, 0);
          assert cell.items[0..] == cell.items;
        }
      }
    } else {
      if !f.htype.Oneof? {
        FieldDefault(env, m, f, cell);
      }
      if Present(env, m, f, cell) {
        ValueWritten(env, m, f, cell.Content());
        StreamOne(Record(f.tag, ValuePayload(env, m, f, cell.Content())));
      }
    }
  }

  ghost function EncodeAt(env: StaticSchema, m: nat, cells: seq<Cell>, i: nat): Emission
    requires m < |env| && i < |env[m]|
  {
    StaticField(env, m, i);
    EncodeField(env, m, env[m][i], CellAt(cells, SlotOf(env[m], i)))
  }

  lemma EncodeStep(env: StaticSchema, m: nat, cells: seq<Cell>, i: nat)
    requires m < |env| && i <= |env[m]|
    ensures EncodeFrom(env, m, cells, i) ==
            if i == |env[m]| then NOTHING else Then(EncodeAt(env, m, cells, i), EncodeFrom(env, m, cells, i + 1))
  {
    hide EncodeField;
  }

  lemma {:induction false} FieldAtWritten(env: StaticSchema, m: nat, cells: seq<Cell>, i: nat)
    requires m < |env| && i < |env[m]| && Faithful(env, m, cells) && EncodeAt(env, m, cells, i).ok
    ensures EncodeAt(env, m, cells, i).bytes == Stream(RecordsAt(env, m, cells, i))
    decreases m, 2, 1
  {
    hide FieldRecords, EncodeField;
    StaticField(env, m, i);
    assert FaithfulAt(env, m, cells, i);
    FieldWritten(env, m, env[m][i], CellAt(cells, SlotOf(env[m], i)));
  }

  lemma {:induction false} FieldsWritten(env: StaticSchema, m: nat, cells: seq<Cell>, i: nat)
    requires m < |env| && i <= |env[m]| && Faithful(env, m, cells) && EncodeFrom(env, m, cells, i).ok
    ensures EncodeFrom(env, m, cells, i).bytes == Stream(RecordsFrom(env, m, cells, i))
    decreases m, 3, |env[m]| - i
  {
    hide Faithful, EncodeAt, EncodeFrom, RecordsFrom, RecordsAt, StaticOk, AllStatic;
    EncodeStep(env, m, cells, i);
    RecordsStep(env, m, cells, i);
    if i < |env[m]| {
      FieldAtWritten(env, m, cells, i);
      FieldsWritten(env, m, cells, i + 1);
      StreamAppend(RecordsAt(env, m, cells, i), RecordsFrom(env, m, cells, i + 1));
    }
  }

  /** What the encoder emits for a message is its records on the wire. */
  lemma {:induction false} EncodesRecords(env: StaticSchema, m: nat, cells: seq<Cell>)
    requires m < |env| && Faithful(env, m, cells) && EncodeMsg(env, m, cells).ok
    ensures EncodeMsg(env, m, cells).bytes == Stream(Records(env, m, cells))
    decreases m, 4, 0
  {
    FieldsWritten(env, m, cells, 0);
  }

  // ----- when there is an encoding -----

  ghost predicate ValueEncodable(env: StaticSchema, m: nat, f: Field, v: Value)
    requires StaticOk(m, f) && m <= |env| && FaithfulValue(env, m, f, v)
    decreases m, 0, 0
  {
    match f.ltype
    case LSubmessage => MessageEncodable(env, f.ptr.id, v.cells, 0)
    case LBytes => |v.bytes| + 4 <= f.dataSize
    case LVarint => f.dataSize == 1 || f.dataSize == 2 || f.dataSize == 4 || f.dataSize == 8
    case LUvarint => f.dataSize == 1 || f.dataSize == 2 || f.dataSize == 4 || f.dataSize == 8
    case LSvarint => f.dataSize == 1 || f.dataSize == 2 || f.dataSize == 4 || f.dataSize == 8
    case _ => true
  }

  ghost predicate EntriesEncodable(env: StaticSchema, m: nat, f: Field, items: seq<Value>, k: nat)
    requires StaticOk(m, f) && m <= |env| && k <= |items|
    requires forall j :: 0 <= j < |items| ==> FaithfulValue(env, m, f, items[j])
    decreases m, 1, |items| - k
  {
    k == |items| || (ValueEncodable(env, m, f, items[k]) && EntriesEncodable(env, m, f, items, k + 1))
  }

  /** What a field has to write is within its bounds. */
  ghost predicate FieldEncodable(env: StaticSchema, m: nat, f: Field, cell: Cell)
    requires StaticOk(m, f) && m <= |env| && FaithfulCell(env, m, f, cell)
    decreases m, 2, 0
  {
    FieldRecords(env, m, f, cell) != [] ==>
      if f.htype.Repeated? then |cell.items| <= f.arraySize && EntriesEncodable(env, m, f, cell.items, 0)
      else ValueEncodable(env, m, f, cell.Content())
  }

  ghost predicate EncodableAt(env: StaticSchema, m: nat, cells: seq<Cell>, i: nat)
    requires m < |env| && i < |env[m]| && Faithful(env, m, cells)
    decreases m, 3, 0
  {
    StaticField(env, m, i);
    assert FaithfulAt(env, m, cells, i);
    FieldEncodable(env, m, env[m][i], CellAt(cells, SlotOf(env[m], i)))
  }

  ghost predicate MessageEncodable(env: StaticSchema, m: nat, cells: seq<Cell>, i: nat)
    requires m < |env| && i <= |env[m]| && Faithful(env, m, cells)
    decreases m, 4, |env[m]| - i
  {
    i == |env[m]| || (EncodableAt(env, m, cells, i) && MessageEncodable(env, m, cells, i + 1))
  }

  lemma {:induction false} ValueEncodes(env: StaticSchema, m: nat, f: Field, v: Value)
    requires StaticOk(m, f) && m <= |env| && FaithfulValue(env, m, f, v)
    ensures EncodeRecord(env, m, f, v).ok <==> ValueEncodable(env, m, f, v)
    decreases m, 0, 0
  {
    hide VarintBytes, FixedBytes, Delimited, StrLen;
    if f.ltype.LSubmessage? {
      MessageEncodes(env, f.ptr.id, v.cells);
      hide MessageEncodable, EncodeMsg;
    }
  }

  lemma {:induction false} EntriesEncode(env: StaticSchema, m: nat, f: Field, items: seq<Value>, k: nat)
    requires StaticOk(m, f) && m <= |env| && k <= |items|
    requires forall j :: 0 <= j < |items| ==> FaithfulValue(env, m, f, items[j])
    ensures EncodeUnpackedFrom(env, m, f, items, k).ok <==> EntriesEncodable(env, m, f, items, k)
    ensures !f.ltype.LSubmessage? ==> (EncodePackedFrom(f, items, k).ok <==> EntriesEncodable(env, m, f, items, k))
    decreases m, 1, |items| - k
  {
    hide FaithfulValue, EncodeScalar, EncodeMsg, ValueEncodable;
    if k < |items| {
      ValueEncodes(env, m, f, items[k]);
      EntriesEncode(env, m, f, items, k + 1);
      assert !f.ltype.LSubmessage? ==> EncodeRecord(env, m, f, items[k]).ok == EncodeScalar(f, items[k]).ok;
    }
  }

  lemma {:induction false} FieldEncodes(env: StaticSchema, m: nat, f: Field, cell: Cell)
    requires StaticOk(m, f) && m <= |env| && FaithfulCell(env, m, f, cell)
    ensures EncodeField(env, m, f, cell).ok <==> FieldEncodable(env, m, f, cell)
    decreases m, 2, 0
  {
    hide FaithfulValue, EncodeRecord, EntriesEncodable, ValueEncodable, EncodeUnpackedFrom, IsDefault, PackedBytes,
         EncodePackedFrom, ZeroValued, ValuePayload;
    if f.htype.Repeated? {
      EntriesEncode(env, m, f, cell.items, 0);
      ArrayRecords(env, m, f, cell);
    } else {
      if !f.htype.Oneof? {
        FieldDefault(env, m, f, cell);
      }
      if Present(env, m, f, cell) {
        ValueEncodes(env, m, f, cell.Content());
      }
    }
  }

  lemma ArrayRecords(env: StaticSchema, m: nat, f: Field, cell: Cell)
    requires StaticOk(m, f) && m <= |env| && FaithfulCell(env, m, f, cell) && f.htype.Repeated?
    ensures FieldRecords(env, m, f, cell) == [] <==> cell.items == []
  {
  }

  lemma EncodableStep(env: StaticSchema, m: nat, cells: seq<Cell>, i: nat)
    requires m < |env| && i <= |env[m]| && Faithful(env, m, cells)
    ensures MessageEncodable(env, m, cells, i) <==>
            i == |env[m]| || (EncodableAt(env, m, cells, i) && MessageEncodable(env, m, cells, i + 1))
  {
    hide Faithful, EncodableAt;
  }

  lemma {:induction false} FieldAtEncodes(env: StaticSchema, m: nat, cells: seq<Cell>, i: nat)
    requires m < |env| && i < |env[m]| && Faithful(env, m, cells)
    ensures EncodeAt(env, m, cells, i).ok <==> EncodableAt(env, m, cells, i)
    decreases m, 2, 1
  {
    hide FieldEncodable, EncodeField;
    StaticField(env, m, i);
    assert FaithfulAt(env, m, cells, i);
    FieldEncodes(env, m, env[m][i], CellAt(cells, SlotOf(env[m], i)));
  }

  lemma {:induction false} FieldsEncode(env: StaticSchema, m: nat, cells: seq<Cell>, i: nat)
    requires m < |env| && i <= |env[m]| && Faithful(env, m, cells)
    ensures EncodeFrom(env, m, cells, i).ok <==> MessageEncodable(env, m, cells, i)
    decreases m, 3, |env[m]| - i
  {
    hide Faithful, EncodeAt, EncodeFrom, MessageEncodable, EncodableAt, StaticOk, AllStatic;
    EncodeStep(env, m, cells, i);
    EncodableStep(env, m, cells, i);
    if i < |env[m]| {
      FieldAtEncodes(env, m, cells, i);
      FieldsEncode(env, m, cells, i + 1);
    }
  }

  /** A message is encoded if and only if what it has to write is within the bounds of its
      fields. */
  lemma {:induction false} MessageEncodes(env: StaticSchema, m: nat, cells: seq<Cell>)
    requires m < |env| && Faithful(env, m, cells)
    ensures EncodeMsg(env, m, cells).ok <==> MessageEncodable(env, m, cells, 0)
    decreases m, 4, 0
  {
    FieldsEncode(env, m, cells, 0);
  }

  // ----- receivers that know none of the fields -----

  /** The encoding of a submessage is shorter than 2^32 bytes, as is the data of a packed
      array. */
  ghost predicate BodyFits(env: StaticSchema, m: nat, f: Field, v: Value)
    requires StaticOk(m, f) && m <= |env|
  {
    f.ltype.LSubmessage? ==> |EncodeMsg(env, f.ptr.id, v.AsCells()).bytes| < U32
  }

  ghost predicate BodiesFit(env: StaticSchema, m: nat, f: Field, cell: Cell)
    requires StaticOk(m, f) && m <= |env|
  {
    if f.htype.Repeated? then
      && (f.ltype.Packable() ==> |EncodePackedFrom(f, cell.Items(), 0).bytes| < U32)
      && forall k :: 0 <= k < |cell.Items()| ==> BodyFits(env, m, f, cell.Items()[k])
    else BodyFits(env, m, f, cell.Content())
  }

  /** None of the fields of `theirs` has a tag of `ours`. */
  ghost predicate TagsApart(ours: seq<Field>, theirs: seq<Field>) {
    forall i: nat | i < |ours| :: FindTag(theirs, ours[i].tag).None?
  }

  /** A payload has the shape that its wire type announces. */
  ghost predicate Shaped(w: nat, payload: seq<byte>) {
    || (w == 0 && VarintLen(payload) == |payload|)
    || (w == 1 && |payload| == 8)
    || (w == 2 && ReadVarint32(payload).Got? && ReadVarint32(payload).v == |ReadVarint32(payload).rest|)
    || (w == 5 && |payload| == 4)
  }

  lemma VarintShaped(v: nat)
    requires v < U64
    ensures Shaped(0, VarintBytes(v))
  {
    assert v < Pow2(7 * 10) by {
      Pow2Values();
      Pow2Monotone(64, 70);
    }
    VarintBytesShape(v, 10);
  }

  lemma DelimitedShaped(b: seq<byte>)
    requires |b| < U32
    ensures Shaped(2, Delimited(b))
  {
    hide ReadVarint32;
    DelimitedRead(b, []);
    assert Delimited(b) + [] == Delimited(b) && b + [] == b;
  }

  lemma ScalarShaped(m: nat, f: Field, v: Value)
    requires StaticOk(m, f) && EncodeScalar(f, v).ok
    ensures Shaped(WireTypeOf(f.ltype), EncodeScalar(f, v).bytes)
  {
    hide Shaped, VarintBytes, Delimited, StrLen;
    match f.ltype
    case LBool => VarintShaped(if v.AsBool() then 1 else 0);
    case LVarint => VarintShaped(Word64(v.AsInt()));
    case LUvarint => VarintShaped(Word64(v.AsInt()));
    case LSvarint => VarintShaped(ZigZag(Int64(v.AsInt())));
    case LFixed32 => FixedShaped(Word32(v.AsInt()), 4);
    case LFixed64 => FixedShaped(Word64(v.AsInt()), 8);
    case LBytes => DelimitedShaped(v.AsBytes());
    case LString => DelimitedShaped(v.AsBytes()[..StrLen(v.AsBytes(), f.dataSize)]);
    case LFixedLengthBytes => DelimitedShaped(Inline(v.AsBytes(), f.dataSize));
    case LSubmessage =>
  }

  lemma FixedShaped(v: nat, n: nat)
    ensures n == 4 ==> Shaped(5, FixedBytes(v, n))
    ensures n == 8 ==> Shaped(1, FixedBytes(v, n))
  {
  }

  lemma ShapedIsSkipped(theirs: Schema, m': nat, st: State, tag: nat, w: nat, payload: seq<byte>)
    requires m' < |theirs| && 1 <= tag < 0x2000_0000 && w < 8
    requires FindTag(theirs[m'], tag).None? && Shaped(w, payload)
    ensures Run(theirs, m', st, TagBytes(w, tag) + payload) == Ended(st)
  {
    hide Run, UnknownRecord, TagBytes, FindTag;
    UnknownRecordShapes(theirs[m'], tag, w, payload);
    RunUnknown(theirs, m', st, TagBytes(w, tag) + payload);
  }

  lemma ValueSkipped(env: StaticSchema, m: nat, f: Field, v: Value, theirs: Schema, m': nat, st: State)
    requires StaticOk(m, f) && m <= |env| && BodyFits(env, m, f, v) && EncodeRecord(env, m, f, v).ok
    requires m' < |theirs| && FindTag(theirs[m'], f.tag).None?
    ensures Run(theirs, m', st, EncodeRecord(env, m, f, v).bytes) == Ended(st)
  {
    hide Run, TagBytes, Shaped, FindTag, EncodeMsg, EncodeScalar;
    if f.ltype.LSubmessage? {
      DelimitedShaped(EncodeMsg(env, f.ptr.id, v.AsCells()).bytes);
    } else {
      ScalarShaped(m, f, v);
    }
    ShapedIsSkipped(theirs, m', st, f.tag, WireTypeOf(f.ltype), EncodeValue(env, m, f, v).bytes);
  }

  lemma {:induction false} EntriesSkipped(env: StaticSchema, m: nat, f: Field, items: seq<Value>, k: nat,
                                          theirs: Schema, m': nat, st: State)
    requires StaticOk(m, f) && m <= |env| && k <= |items|
    requires forall j :: 0 <= j < |items| ==> BodyFits(env, m, f, items[j])
    requires EncodeUnpackedFrom(env, m, f, items, k).ok
    requires m' < |theirs| && FindTag(theirs[m'], f.tag).None?
    ensures Run(theirs, m', st, EncodeUnpackedFrom(env, m, f, items, k).bytes) == Ended(st)
    decreases |items| - k
  {
    hide EncodeRecord, FindTag, BodyFits;
    if k < |items| {
      ValueSkipped(env, m, f, items[k], theirs, m', st);
      EntriesSkipped(env, m, f, items, k + 1, theirs, m', st);
      hide Run;
      RunAppend(theirs, m', st, EncodeRecord(env, m, f, items[k]).bytes,
                EncodeUnpackedFrom(env, m, f, items, k + 1).bytes);
    }
  }

  lemma FieldSkipped(env: StaticSchema, m: nat, f: Field, cell: Cell, theirs: Schema, m': nat, st: State)
    requires StaticOk(m, f) && m <= |env| && BodiesFit(env, m, f, cell) && EncodeField(env, m, f, cell).ok
    requires m' < |theirs| && FindTag(theirs[m'], f.tag).None?
    ensures Run(theirs, m', st, EncodeField(env, m, f, cell).bytes) == Ended(st)
  {
    hide EncodeRecord, FindTag, EncodeUnpackedFrom, EncodePackedFrom, BodyFits, IsDefault;
    assert Run(theirs, m', st, []) == Ended(st);
    hide Run;
    if f.htype.Repeated? {
      var items := cell.Items();
      if items != [] {
        if f.ltype.Packable() {
          DelimitedShaped(EncodePackedFrom(f, items, 0).bytes);
          ShapedIsSkipped(theirs, m', st, f.tag, WT_STRING, Delimited(EncodePackedFrom(f, items, 0).bytes));
        } else {
          EntriesSkipped(env, m, f, items, 0, theirs, m', st);
        }
      }
    } else if Present(env, m, f, cell) {
      ValueSkipped(env, m, f, cell.Content(), theirs, m', st);
    }
  }

  ghost predicate FieldBodiesFit(env: StaticSchema, m: nat, cells: seq<Cell>, i: nat)
    requires m < |env| && i < |env[m]|
  {
    StaticField(env, m, i);
    BodiesFit(env, m, env[m][i], CellAt(cells, SlotOf(env[m], i)))
  }

  lemma FieldAtSkipped(env: StaticSchema, m: nat, cells: seq<Cell>, i: nat, theirs: Schema, m': nat, st: State)
    requires m < |env| && i < |env[m]| && EncodeAt(env, m, cells, i).ok && FieldBodiesFit(env, m, cells, i)
    requires m' < |theirs| && TagsApart(env[m], theirs[m'])
    ensures Run(theirs, m', st, EncodeAt(env, m, cells, i).bytes) == Ended(st)
  {
    hide EncodeField, FindTag, BodiesFit;
    StaticField(env, m, i);
    FieldSkipped(env, m, env[m][i], CellAt(cells, SlotOf(env[m], i)), theirs, m', st);
  }

  lemma {:induction false} FieldsSkipped(env: StaticSchema, m: nat, cells: seq<Cell>, i: nat,
                                         theirs: Schema, m': nat, st: State)
    requires m < |env| && i <= |env[m]| && EncodeFrom(env, m, cells, i).ok
    requires forall j: nat | j < |env[m]| :: FieldBodiesFit(env, m, cells, j)
    requires m' < |theirs| && TagsApart(env[m], theirs[m'])
    ensures Run(theirs, m', st, EncodeFrom(env, m, cells, i).bytes) == Ended(st)
    decreases |env[m]| - i
  {
    assert Run(theirs, m', st, []) == Ended(st);
    hide EncodeAt, EncodeFrom, FieldBodiesFit, TagsApart, Run;
    EncodeStep(env, m, cells, i);
    if i < |env[m]| {
      FieldAtSkipped(env, m, cells, i, theirs, m', st);
      FieldsSkipped(env, m, cells, i + 1, theirs, m', st);
      RunAppend(theirs, m', st, EncodeAt(env, m, cells, i).bytes, EncodeFrom(env, m, cells, i + 1).bytes);
    }
  }

  /** A receiver whose descriptor has none of the sender's tags reads over the whole message. */
  lemma StrangerSkips(env: StaticSchema, m: nat, cells: seq<Cell>, theirs: Schema, m': nat, st: State)
    requires m < |env| && EncodeMsg(env, m, cells).ok
    requires forall i: nat | i < |env[m]| :: FieldBodiesFit(env, m, cells, i)
    requires m' < |theirs| && TagsApart(env[m], theirs[m'])
    ensures Run(theirs, m', st, EncodeMsg(env, m, cells).bytes) == Ended(st)
  {
    FieldsSkipped(env, m, cells, 0, theirs, m', st);
  }
}
