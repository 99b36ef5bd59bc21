/**
  What every decode keeps, on any bytes: fields without a record keep what they
  held, and everything that is stored fits the member it is stored in.
*/
module PbBounds {
  import opened Bits
  import opened Collections
  import opened PbWire
  import opened PbTypes
  import opened PbDecodeSpec
  import opened PbRequired
  import opened PbRoundTrip

  // ----- fields without a record -----

  /** No field with a record lives in the cell. */
  ghost predicate Untouched(fields: seq<Field>, occurring: set<nat>, slot: nat) {
    forall i: nat | i in occurring && i < |fields| :: SlotOf(fields, i) != slot
  }

  lemma RecordKeepsOthers(env: Schema, m: nat, key: nat, st: State, s: seq<byte>, slot: nat)
    requires m < |env| && DecodeRecord(env, m, key, st, s).Got?
    requires Untouched(env[m], IndexOfKey(env[m], key), slot)
    ensures |DecodeRecord(env, m, key, st, s).v.cells| == |st.cells|
    ensures CellAt(DecodeRecord(env, m, key, st, s).v.cells, slot) == CellAt(st.cells, slot)
  {
    match FindTag(env[m], key / 8)
    case None =>
    case Some(i) =>
      assert i in IndexOfKey(env[m], key);
      FieldKeepsOthers(env, m, i, key % 8, MarkSeen(env[m], EnterFixed(env[m], st, i).value, i), s, slot);
      hide DecodeField;
  }

  lemma FieldKeepsOthers(env: Schema, m: nat, i: nat, wireType: nat, st: State, s: seq<byte>, slot: nat)
    requires m < |env| && i < |env[m]| && DecodeField(env, m, i, wireType, st, s).Got?
    requires SlotOf(env[m], i) != slot
    ensures |DecodeField(env, m, i, wireType, st, s).v.cells| == |st.cells|
    ensures CellAt(DecodeField(env, m, i, wireType, st, s).v.cells, slot) == CellAt(st.cells, slot)
  {
    hide DecodeValue, DecodePacked, OldContent, SlotOf, ReadSubstream;
    TableField(env, m, i);
  }

  /** A run leaves every cell alone that none of its records belongs to. */
  lemma {:induction false} RunKeepsOthers(env: Schema, m: nat, st: State, s: seq<byte>, slot: nat)
    requires m < |env| && !Run(env, m, st, s).Failed?
    requires Untouched(env[m], Occurring(env, m, st, s), slot)
    ensures |Run(env, m, st, s).st.cells| == |st.cells|
    ensures CellAt(Run(env, m, st, s).st.cells, slot) == CellAt(st.cells, slot)
    decreases |s|
  {
    hide DecodeRecord, ReadKey, IndexOfKey, CellAt;
    if s != [] && ReadKey(s).Got? && ReadKey(s).v != 0 {
      var key, rest := ReadKey(s).v, ReadKey(s).rest;
      var r := DecodeRecord(env, m, key, st, rest);
      RecordKeepsOthers(env, m, key, st, rest, slot);
      RunKeepsOthers(env, m, r.v, r.rest, slot);
    }
  }

  /** The value of a static field that nothing was decoded into: its default, or else zero. */
  ghost predicate IsInitial(env: Schema, f: Field, v: Value) {
    if f.ltype.LSubmessage? then f.ptr.SubmsgPtr? && f.ptr.id < |env| && v == VMsg(Defaults(env, f.ptr.id))
    else if f.ptr.DefaultPtr? then v == f.ptr.value
    else if f.ltype.LBool? then v == VBool(false)
    else if f.ltype.LBytes? || f.ltype.LString? then v == VBytes([])
    else if f.ltype.LFixedLengthBytes? then v.VBytes? && |v.bytes| == f.dataSize && forall k :: 0 <= k < |v.bytes| ==> v.bytes[k] == 0
    else v == VInt(0)
  }

  ghost predicate IsAbsent(env: Schema, f: Field, cell: Cell) {
    match f.htype
    case Required => if f.atype.Pointer? then cell.Opt? && !cell.has else cell.Plain? && IsInitial(env, f, cell.v)
    case Optional =>
      if f.atype.Pointer? then cell.Opt? && !cell.has
      else if f.sizeOffset == 0 then cell.Plain? && IsInitial(env, f, cell.v)
      else cell.Opt? && !cell.has && IsInitial(env, f, cell.v)
    case Repeated => cell == Arr([])
    case Oneof => cell == Unset
  }

  lemma DefaultIsInitial(env: Schema, m: nat, f: Field)
    requires FieldIn(env, m, f) && f.atype.Static?
    ensures IsInitial(env, f, DefaultValue(env, m, f))
  {
    hide Defaults;
  }

  lemma DefaultIsAbsent(env: Schema, m: nat, i: nat)
    requires m < |env| && i < |env[m]|
    ensures IsAbsent(env, env[m][i], CellAt(Defaults(env, m), SlotOf(env[m], i)))
  {
    DefaultsAt(env, m, i);
    TableField(env, m, i);
    hide Defaults, SlotOf, IsInitial, DefaultValue;
    if env[m][i].atype.Static? {
      DefaultIsInitial(env, m, env[m][i]);
    }
  }

  /** Decoding leaves a field without records absent, with its default value. */
  lemma AbsentHasDefault(env: Schema, m: nat, i: nat, s: seq<byte>)
    requires m < |env| && i < |env[m]| && Decode(env, m, s).Got?
    requires Untouched(env[m], Occurring(env, m, Start(Defaults(env, m)), s), SlotOf(env[m], i))
    ensures IsAbsent(env, env[m][i], CellAt(Decode(env, m, s).v, SlotOf(env[m], i)))
  {
    hide Run, Occurring, Defaults, SlotOf, IsAbsent, Untouched;
    RunKeepsOthers(env, m, Start(Defaults(env, m)), s, SlotOf(env[m], i));
    DefaultIsAbsent(env, m, i);
  }

  // ----- what is stored fits -----

  predicate FitsScalar(f: Field, v: Value) {
    match f.ltype
    case LBool => v.VBool?
    case LVarint => v.VInt? && FitsSigned(v.i, f.dataSize)
    case LUvarint => v.VInt? && FitsUnsigned(v.i, f.dataSize)
    case LSvarint => v.VInt? && FitsSigned(v.i, f.dataSize)
    case LFixed32 => v.VInt? && 0 <= v.i < 0x1_0000_0000
    case LFixed64 => v.VInt? && 0 <= v.i < 0x1_0000_0000_0000_0000
    case LBytes => v.VBytes? && |v.bytes| + 4 <= f.dataSize
    case LString => v.VBytes? && (v.bytes == [] || |v.bytes| + 1 <= f.dataSize)
    case LFixedLengthBytes => v.VBytes? && |v.bytes| == f.dataSize
    case LSubmessage => false
  }

  ghost predicate FitsValue(env: Schema, m: nat, f: Field, v: Value)
    requires FieldIn(env, m, f)
    decreases v, 0
  {
    if f.ltype.LSubmessage? then v.VMsg? && FitsMessage(env, f.ptr.id, v.cells) else FitsScalar(f, v)
  }

  /** A cell has the members of its field; an array no more entries than it has room for. */
  ghost predicate FitsCell(env: Schema, m: nat, f: Field, cell: Cell)
    requires FieldIn(env, m, f)
    decreases cell, 1
  {
    match f.htype
    case Repeated =>
      && cell.Arr?
      && |cell.items| <= (if f.atype.Static? then f.arraySize else 0xFFFF_FFFF)
      && forall k :: 0 <= k < |cell.items| ==> FitsValue(env, m, f, cell.items[k])
    case Oneof => cell.Unset? || (cell.Union? && (cell.which == f.tag ==> FitsValue(env, m, f, cell.v)))
    case _ =>
      if f.atype.Pointer? then cell.Opt? && (cell.has ==> FitsValue(env, m, f, cell.v))
      else (if f.htype.Optional? && f.sizeOffset != 0 then cell.Opt? else cell.Plain?) && FitsValue(env, m, f, cell.v)
  }

  ghost predicate FitsMessage(env: Schema, m: nat, cells: seq<Cell>)
    requires m < |env|
    decreases cells, 2
  {
    && |cells| == NumSlots(env[m])
    && forall i: nat | i < |env[m]| :: SlotOf(env[m], i) < |cells| && FitsAt(env, m, i, cells[SlotOf(env[m], i)])
  }

  ghost predicate FitsAt(env: Schema, m: nat, i: nat, cell: Cell)
    requires m < |env| && i < |env[m]|
    decreases cell, 2
  {
    TableField(env, m, i);
    FitsCell(env, m, env[m][i], cell)
  }

  /** The default values of the table fit their fields. */
  ghost predicate DefaultsFit(env: Schema) {
    forall m: nat, i: nat | m < |env| && i < |env[m]| && env[m][i].ptr.DefaultPtr? ::
      FitsScalar(env[m][i], env[m][i].ptr.value)
  }

  lemma FitsIntro(env: Schema, m: nat, cells: seq<Cell>)
    requires m < |env| && |cells| == NumSlots(env[m])
    requires forall i: nat | i < |env[m]| :: FitsAt(env, m, i, CellAt(cells, SlotOf(env[m], i)))
    ensures FitsMessage(env, m, cells)
  {
    hide FitsAt, SlotOf, NumSlots;
    forall i: nat | i < |env[m]| ensures SlotOf(env[m], i) < |cells| && FitsAt(env, m, i, cells[SlotOf(env[m], i)]) {
      SlotBound(env[m], i);
      assert FitsAt(env, m, i, CellAt(cells, SlotOf(env[m], i)));
    }
  }

  lemma FitsElim(env: Schema, m: nat, cells: seq<Cell>, i: nat)
    requires m < |env| && i < |env[m]| && FitsMessage(env, m, cells)
    ensures |cells| == NumSlots(env[m]) && SlotOf(env[m], i) < |cells|
    ensures FitsAt(env, m, i, cells[SlotOf(env[m], i)])
  {
  }

  lemma ZeroFits(m: nat, f: Field)
    requires FieldOk(m, f) && !f.ltype.LSubmessage?
    ensures FitsScalar(f, ZeroValue(f))
  {
  }

  lemma DefaultValueFits(env: Schema, m: nat, i: nat)
    requires m < |env| && i < |env[m]| && DefaultsFit(env) && !env[m][i].ltype.LSubmessage?
    ensures FieldIn(env, m, env[m][i]) && FitsValue(env, m, env[m][i], DefaultValue(env, m, env[m][i]))
  {
    TableField(env, m, i);
    ZeroFits(m, env[m][i]);
    hide FitsScalar, ZeroValue, FieldOk;
  }

  lemma {:induction false} DefaultFits(env: Schema, m: nat, i: nat)
    requires m < |env| && i < |env[m]| && DefaultsFit(env)
    ensures FieldOk(m, env[m][i])
    ensures FitsAt(env, m, i, DefaultCell(env, m, env[m][i]))
    decreases m, 0
  {
    TableField(env, m, i);
    var f := env[m][i];
    if f.atype.Static? {
      if f.ltype.LSubmessage? {
        DefaultMessageFits(env, f.ptr.id);
        assert FitsValue(env, m, f, DefaultValue(env, m, f)) by {
          hide FitsMessage, Defaults;
        }
      } else {
        DefaultValueFits(env, m, i);
      }
    }
    hide FitsMessage, Defaults, FitsValue, DefaultValue;
    assert FitsCell(env, m, f, DefaultCell(env, m, f));
  }

  /** The initial message fits. */
  lemma {:induction false} DefaultMessageFits(env: Schema, m: nat)
    requires m < |env| && DefaultsFit(env)
    ensures FitsMessage(env, m, Defaults(env, m))
    decreases m, 1
  {
    hide FitsAt, DefaultCell;
    forall i: nat | i < |env[m]| ensures FitsAt(env, m, i, CellAt(Defaults(env, m), SlotOf(env[m], i))) {
      DefaultFits(env, m, i);
      DefaultsAt(env, m, i);
    }
    FitsIntro(env, m, Defaults(env, m));
  }

  // ----- values that were read -----

  lemma CastRange(v: int, n: nat)
    requires n == 1 || n == 2 || n == 4 || n == 8
    ensures FitsSigned(SignedCast(v, n), n) && FitsUnsigned(UnsignedCast(v, n), n)
  {
  }

  lemma {:induction false} LittleEndianBelow(b: seq<byte>)
    ensures LittleEndian(b) < Pow2(8 * |b|)
  {
    if b != [] {
      LittleEndianBelow(b[1..]);
      Pow2Byte(|b| - 1);
    }
  }

  lemma FixedFits(s: seq<byte>)
    ensures DecodeFixed(s, 4).Got? ==> DecodeFixed(s, 4).v.VInt? && 0 <= DecodeFixed(s, 4).v.i < 0x1_0000_0000
    ensures DecodeFixed(s, 8).Got? ==> DecodeFixed(s, 8).v.VInt? && 0 <= DecodeFixed(s, 8).v.i < 0x1_0000_0000_0000_0000
  {
    Pow2Values();
    if |s| >= 4 {
      LittleEndianBelow(s[..4]);
    }
    if |s| >= 8 {
      LittleEndianBelow(s[..8]);
    }
  }

  lemma DelimitedFits(f: Field, s: seq<byte>)
    requires f.dataSize <= PB_SIZE_MAX
    ensures DecodeBytes(f, s).Got? ==> DecodeBytes(f, s).v.VBytes? && |DecodeBytes(f, s).v.bytes| + 4 <= f.dataSize
    ensures DecodeString(f, s).Got? ==> DecodeString(f, s).v.VBytes? && |DecodeString(f, s).v.bytes| + 1 <= f.dataSize
    ensures DecodeInline(f, s).Got? ==> DecodeInline(f, s).v.VBytes? && |DecodeInline(f, s).v.bytes| == f.dataSize
  {
    hide ReadVarint32;
  }

  /** Whatever bytes a scalar decoder is given, what it accepts fits. */
  lemma ScalarFits(m: nat, f: Field, s: seq<byte>)
    requires FieldOk(m, f) && DecodeScalar(f, s).Got?
    ensures FitsScalar(f, DecodeScalar(f, s).v)
  {
    hide ReadVarint, ReadVarint32, DecodeFixed, DecodeBytes, DecodeString, DecodeInline, FitsSigned, FitsUnsigned,
         SignedCast, UnsignedCast;
    match f.ltype
    case LVarint => CastRange(DecodeScalar(f, s).v.i, f.dataSize);
    case LUvarint => CastRange(DecodeScalar(f, s).v.i, f.dataSize);
    case LSvarint => CastRange(DecodeScalar(f, s).v.i, f.dataSize);
    case LFixed32 => FixedFits(s);
    case LFixed64 => FixedFits(s);
    case LBool =>
    case LSubmessage =>
    case _ => DelimitedFits(f, s);
  }

  ghost predicate ItemsFit(f: Field, items: seq<Value>) {
    |items| <= f.arraySize && forall k :: 0 <= k < |items| ==> FitsScalar(f, items[k])
  }

  lemma {:induction false} PackedFits(m: nat, f: Field, items: seq<Value>, count: nat, s: seq<byte>)
    requires FieldOk(m, f) && ItemsFit(f, items) && DecodePacked(f, items, count, s).PackedOk?
    ensures ItemsFit(f, DecodePacked(f, items, count, s).items)
    decreases |s|
  {
    hide FieldOk, DecodeScalar, FitsScalar;
    if s != [] {
      ScalarFits(m, f, s);
      var r := DecodeScalar(f, s);
      PackedFits(m, f, PutItem(items, count, r.v), count + 1, r.rest);
    }
  }

  // ----- storing -----

  lemma SharedFits(env: Schema, m: nat, i: nat, j: nat, c: Cell)
    requires m < |env| && i < |env[m]| && j < |env[m]| && SlotOf(env[m], i) == SlotOf(env[m], j)
    requires FitsAt(env, m, i, c) && (env[m][i].htype.Oneof? ==> c.Union? && c.which == env[m][i].tag)
    ensures FitsAt(env, m, j, c)
  {
    if i != j {
      assert DescriptorOk(m, env[m]);
      SharedSlotIsUnion(env[m], if i < j then i else j, if i < j then j else i);
    }
  }

  lemma StoreFits(env: Schema, m: nat, cells: seq<Cell>, i: nat, c: Cell)
    requires m < |env| && i < |env[m]| && FitsMessage(env, m, cells)
    requires FitsAt(env, m, i, c) && (env[m][i].htype.Oneof? ==> c.Union? && c.which == env[m][i].tag)
    ensures FitsMessage(env, m, SetCell(cells, SlotOf(env[m], i), c))
  {
    var cells' := SetCell(cells, SlotOf(env[m], i), c);
    FitsElim(env, m, cells, i);
    hide FitsMessage, FitsAt, SlotOf, NumSlots;
    forall j: nat | j < |env[m]| ensures FitsAt(env, m, j, CellAt(cells', SlotOf(env[m], j))) {
      FitsElim(env, m, cells, j);
      if SlotOf(env[m], j) == SlotOf(env[m], i) {
        SharedFits(env, m, i, j, c);
      }
    }
    FitsIntro(env, m, cells');
  }

  // ----- decoding -----

  lemma MessageValue(env: Schema, m: nat, f: Field, v: Value)
    requires FieldIn(env, m, f) && f.ltype.LSubmessage? && FitsValue(env, m, f, v)
    ensures FitsMessage(env, f.ptr.id, v.AsCells())
  {
  }

  lemma OldContentFits(env: Schema, m: nat, i: nat, cell: Cell)
    requires m < |env| && i < |env[m]| && DefaultsFit(env) && FitsAt(env, m, i, cell)
    requires env[m][i].ltype.LSubmessage?
    ensures FieldIn(env, m, env[m][i])
    ensures FitsMessage(env, env[m][i].ptr.id, OldContent(env, m, env[m][i], cell).AsCells())
  {
    TableField(env, m, i);
    var f := env[m][i];
    DefaultMessageFits(env, f.ptr.id);
    hide FitsMessage, Defaults, FitsValue;
    assert FitsCell(env, m, f, cell);
    if !f.htype.Repeated? && f.atype.Static? && (f.htype.Oneof? ==> cell.Which() == f.tag && cell.Union?) {
      MessageValue(env, m, f, cell.v);
    }
  }

  lemma {:induction false} ValueFits(env: Schema, m: nat, f: Field, init: Value, s: seq<byte>)
    requires FieldIn(env, m, f) && DefaultsFit(env)
    requires f.ltype.LSubmessage? ==> FitsMessage(env, f.ptr.id, init.AsCells())
    requires DecodeValue(env, m, f, init, s).Got?
    ensures FitsValue(env, m, f, DecodeValue(env, m, f, init, s).v)
    decreases |s|, 0
  {
    hide FitsMessage, FitsScalar, DecodeScalar, DecodeMsg, ReadSubstream, DefaultsFit;
    if f.ltype.LSubmessage? {
      DecodedFits(env, f.ptr.id, init.AsCells(), ReadSubstream(s).v);
    } else {
      ScalarFits(m, f, s);
    }
  }

  /** The cell of an array of numbers. */
  lemma ItemsCell(env: Schema, m: nat, i: nat, cell: Cell)
    requires m < |env| && i < |env[m]| && env[m][i].htype.Repeated? && env[m][i].ltype.Packable()
    ensures FitsAt(env, m, i, cell) <==> cell.Arr? && ItemsFit(env[m][i], cell.items)
  {
    TableField(env, m, i);
    var f := env[m][i];
    hide FitsScalar;
    if cell.Arr? {
      forall k | 0 <= k < |cell.items| ensures FitsValue(env, m, f, cell.items[k]) <==> FitsScalar(f, cell.items[k]) {
      }
      assert FitsAt(env, m, i, cell) <==> FitsCell(env, m, f, cell);
    }
  }

  lemma PackedFieldFits(env: Schema, m: nat, i: nat, st: State, s: seq<byte>)
    requires m < |env| && i < |env[m]| && FitsMessage(env, m, st.cells)
    requires env[m][i].htype.Repeated? && env[m][i].ltype.Packable()
    requires DecodePackedField(env[m][i], st, SlotOf(env[m], i), s).Got?
    ensures FitsMessage(env, m, DecodePackedField(env[m][i], st, SlotOf(env[m], i), s).v.cells)
  {
    hide FitsMessage, FitsAt, FitsCell, SlotOf, DecodePacked, ReadSubstream, ItemsFit;
    var f, slot := env[m][i], SlotOf(env[m], i);
    TableField(env, m, i);
    FitsElim(env, m, st.cells, i);
    ItemsCell(env, m, i, st.cells[slot]);
    var items := st.cells[slot].items;
    var r := DecodePacked(f, items, CountOf(f, st, items), ReadSubstream(s).v);
    PackedFits(m, f, items, CountOf(f, st, items), ReadSubstream(s).v);
    ItemsCell(env, m, i, Arr(r.items));
    StoreFits(env, m, st.cells, i, Arr(r.items));
  }

  /** A value is stored in a singular field. */
  lemma SingleFits(env: Schema, m: nat, i: nat, cells: seq<Cell>, v: Value)
    requires m < |env| && i < |env[m]| && FitsMessage(env, m, cells) && FieldIn(env, m, env[m][i])
    requires !env[m][i].htype.Repeated? && FitsValue(env, m, env[m][i], v)
    ensures FitsMessage(env, m, SetCell(cells, SlotOf(env[m], i), StoreValue(env[m][i], v)))
  {
    hide FitsMessage, FitsValue;
    assert FitsCell(env, m, env[m][i], StoreValue(env[m][i], v));
    StoreFits(env, m, cells, i, StoreValue(env[m][i], v));
  }

  /** A value is stored in an array. */
  lemma EntryFits(env: Schema, m: nat, i: nat, cells: seq<Cell>, k: nat, v: Value)
    requires m < |env| && i < |env[m]| && FitsMessage(env, m, cells) && FieldIn(env, m, env[m][i])
    requires env[m][i].htype.Repeated? && FitsValue(env, m, env[m][i], v) && k < Capacity(env[m][i])
    ensures FitsMessage(env, m, SetCell(cells, SlotOf(env[m], i), Arr(PutItem(CellAt(cells, SlotOf(env[m], i)).Items(), k, v))))
  {
    var f := env[m][i];
    FitsElim(env, m, cells, i);
    var items := cells[SlotOf(env[m], i)].items;
    hide FitsMessage, FitsValue;
    assert FitsCell(env, m, f, Arr(items));
    var items' := PutItem(items, k, v);
    assert |items'| <= (if f.atype.Static? then f.arraySize else 0xFFFF_FFFF);
    assert FitsCell(env, m, f, Arr(items'));
    StoreFits(env, m, cells, i, Arr(items'));
  }

  lemma {:induction false} FieldFits(env: Schema, m: nat, i: nat, wireType: nat, st: State, s: seq<byte>)
    requires m < |env| && i < |env[m]| && DefaultsFit(env) && FitsMessage(env, m, st.cells)
    requires DecodeField(env, m, i, wireType, st, s).Got?
    ensures FitsMessage(env, m, DecodeField(env, m, i, wireType, st, s).v.cells)
    decreases |s|, 1
  {
    hide FitsMessage, FitsAt, FitsValue, DecodeValue, OldContent, SlotOf, DecodePackedField, DefaultsFit, Capacity, PutItem;
    var f, slot := env[m][i], SlotOf(env[m], i);
    TableField(env, m, i);
    FitsElim(env, m, st.cells, i);
    var cell := CellAt(st.cells, slot);
    if f.htype.Repeated? && wireType == WT_STRING && f.ltype.Packable() {
      PackedFieldFits(env, m, i, st, s);
    } else {
      var init := OldContent(env, m, f, cell);
      if f.ltype.LSubmessage? {
        OldContentFits(env, m, i, cell);
      }
      ValueFits(env, m, f, init, s);
      var v := DecodeValue(env, m, f, init, s).v;
      if f.htype.Repeated? {
        EntryFits(env, m, i, st.cells, CountOf(f, st, cell.Items()), v);
      } else {
        SingleFits(env, m, i, st.cells, v);
      }
    }
  }

  lemma {:induction false} RecordFits(env: Schema, m: nat, key: nat, st: State, s: seq<byte>)
    requires m < |env| && DefaultsFit(env) && FitsMessage(env, m, st.cells)
    requires DecodeRecord(env, m, key, st, s).Got?
    ensures FitsMessage(env, m, DecodeRecord(env, m, key, st, s).v.cells)
    decreases |s|, 2
  {
    hide FitsMessage, DecodeField, DefaultsFit;
    if FindTag(env[m], key / 8).Some? {
      var i := FindTag(env[m], key / 8).value;
      var st1 := MarkSeen(env[m], EnterFixed(env[m], st, i).value, i);
      assert st1.cells == st.cells;
      FieldFits(env, m, i, key % 8, st1, s);
    }
  }

  lemma {:induction false} RunFits(env: Schema, m: nat, st: State, s: seq<byte>)
    requires m < |env| && DefaultsFit(env) && FitsMessage(env, m, st.cells)
    requires !Run(env, m, st, s).Failed?
    ensures FitsMessage(env, m, Run(env, m, st, s).st.cells)
    decreases |s|, 3
  {
    hide FitsMessage, DecodeRecord, ReadKey, DefaultsFit;
    if s != [] && ReadKey(s).Got? && ReadKey(s).v != 0 {
      var r := DecodeRecord(env, m, ReadKey(s).v, st, ReadKey(s).rest);
      RecordFits(env, m, ReadKey(s).v, st, ReadKey(s).rest);
      RunFits(env, m, r.v, r.rest);
    }
  }

  /** Decoding any bytes into a message that fits leaves one that fits: no number, string or
      array is stored that its member has no room for. */
  lemma {:induction false} DecodedFits(env: Schema, m: nat, cells: seq<Cell>, s: seq<byte>)
    requires m < |env| && DefaultsFit(env) && FitsMessage(env, m, cells)
    requires DecodeMsg(env, m, cells, s).Got?
    ensures FitsMessage(env, m, DecodeMsg(env, m, cells, s).v)
    decreases |s|, 4
  {
    hide FitsMessage, Run, DefaultsFit, Complete;
    RunFits(env, m, Start(cells), s);
  }

  /** Every message that is decoded fits. */
  lemma MessageFits(env: Schema, m: nat, s: seq<byte>)
    requires m < |env| && DefaultsFit(env) && Decode(env, m, s).Got?
    ensures FitsMessage(env, m, Decode(env, m, s).v)
  {
    DefaultMessageFits(env, m);
    DecodedFits(env, m, Defaults(env, m), s);
  }

  // ----- fixed-count arrays -----

  /** Empty, or with all its entries. */
  predicate Whole(f: Field, cell: Cell) {
    |cell.Items()| == 0 || |cell.Items()| == f.arraySize
  }

  ghost predicate WholeAt(fields: seq<Field>, cells: seq<Cell>, i: nat)
    requires i < |fields|
  {
    fields[i].FixedCount() ==> Whole(fields[i], CellAt(cells, SlotOf(fields, i)))
  }

  ghost predicate ArraysWhole(fields: seq<Field>, cells: seq<Cell>) {
    forall i: nat | i < |fields| :: WholeAt(fields, cells, i)
  }

  /** All of them but the one in progress; that one has as many entries as were counted, or was
      whole before. */
  ghost predicate WholeButOne(fields: seq<Field>, st: State) {
    && (forall i: nat | i < |fields| && st.fixedField != Some(i) :: WholeAt(fields, st.cells, i))
    && (st.fixedField.Some? && st.fixedField.value < |fields| && fields[st.fixedField.value].FixedCount() ==>
          Counted(fields[st.fixedField.value], CellAt(st.cells, SlotOf(fields, st.fixedField.value)).Items(), st.fixedSize))
  }

  predicate Counted(f: Field, items: seq<Value>, count: nat) {
    |items| == count || |items| == f.arraySize
  }

  lemma EnterWhole(fields: seq<Field>, st: State, i: nat)
    requires i < |fields| && WholeButOne(fields, st) && EnterFixed(fields, st, i).Some?
    ensures WholeButOne(fields, EnterFixed(fields, st, i).value)
    ensures fields[i].FixedCount() ==> EnterFixed(fields, st, i).value.fixedField == Some(i)
  {
    hide SlotOf;
    if fields[i].FixedCount() && st.fixedField != Some(i) {
      assert WholeAt(fields, st.cells, i);
    }
  }

  lemma {:induction false} PackedCounted(f: Field, items: seq<Value>, count: nat, s: seq<byte>)
    requires Counted(f, items, count) && DecodePacked(f, items, count, s).PackedOk?
    ensures var r := DecodePacked(f, items, count, s);
      Counted(f, r.items, r.count)
    decreases |s|
  {
    hide DecodeScalar;
    if s != [] {
      var r := DecodeScalar(f, s);
      PackedCounted(f, PutItem(items, count, r.v), count + 1, r.rest);
    }
  }

  /** A field's record changes the entries of its own array only. */
  lemma FieldCounted(env: Schema, m: nat, i: nat, wireType: nat, st: State, s: seq<byte>)
    requires m < |env| && i < |env[m]| && DecodeField(env, m, i, wireType, st, s).Got?
    requires SlotOf(env[m], i) < |st.cells|
    requires env[m][i].FixedCount() ==> Counted(env[m][i], CellAt(st.cells, SlotOf(env[m], i)).Items(), st.fixedSize)
    ensures var st' := DecodeField(env, m, i, wireType, st, s).v;
      && st'.fixedField == st.fixedField
      && (env[m][i].FixedCount() ==> Counted(env[m][i], CellAt(st'.cells, SlotOf(env[m], i)).Items(), st'.fixedSize))
      && (!env[m][i].FixedCount() ==> st'.fixedSize == st.fixedSize)
  {
    hide DecodeValue, DecodePacked, OldContent, SlotOf, ReadSubstream;
    TableField(env, m, i);
    var f := env[m][i];
    if f.FixedCount() && wireType == WT_STRING && f.ltype.Packable() {
      var items := CellAt(st.cells, SlotOf(env[m], i)).Items();
      PackedCounted(f, items, st.fixedSize, ReadSubstream(s).v);
    }
  }

  lemma ApartFromFixed(fields: seq<Field>, i: nat, j: nat)
    requires i < |fields| && j < |fields| && i != j && fields[j].FixedCount()
    ensures SlotOf(fields, i) != SlotOf(fields, j)
  {
    if SlotOf(fields, i) == SlotOf(fields, j) {
      SharedSlotIsUnion(fields, if i < j then i else j, if i < j then j else i);
    }
  }

  lemma FieldWhole(env: Schema, m: nat, i: nat, wireType: nat, st: State, s: seq<byte>)
    requires m < |env| && i < |env[m]| && DecodeField(env, m, i, wireType, st, s).Got?
    requires |st.cells| == NumSlots(env[m]) && WholeButOne(env[m], st)
    requires env[m][i].FixedCount() ==> st.fixedField == Some(i)
    ensures |DecodeField(env, m, i, wireType, st, s).v.cells| == |st.cells|
    ensures WholeButOne(env[m], DecodeField(env, m, i, wireType, st, s).v)
  {
    hide DecodeField, SlotOf, NumSlots, CellAt, Counted, Whole;
    SlotBound(env[m], i);
    FieldCounted(env, m, i, wireType, st, s);
    var st' := DecodeField(env, m, i, wireType, st, s).v;
    FieldKeepsSize(env, m, i, wireType, st, s);
    forall j: nat | j < |env[m]| && j != i && env[m][j].FixedCount()
      ensures CellAt(st'.cells, SlotOf(env[m], j)) == CellAt(st.cells, SlotOf(env[m], j))
    {
      ApartFromFixed(env[m], i, j);
      FieldKeepsOthers(env, m, i, wireType, st, s, SlotOf(env[m], j));
    }
    forall j: nat | j < |env[m]| && st'.fixedField != Some(j) ensures WholeAt(env[m], st'.cells, j) {
      assert WholeAt(env[m], st.cells, j);
    }
  }

  lemma FieldKeepsSize(env: Schema, m: nat, i: nat, wireType: nat, st: State, s: seq<byte>)
    requires m < |env| && i < |env[m]| && DecodeField(env, m, i, wireType, st, s).Got?
    ensures |DecodeField(env, m, i, wireType, st, s).v.cells| == |st.cells|
  {
    hide DecodeValue, DecodePacked, OldContent, SlotOf, ReadSubstream;
    TableField(env, m, i);
  }

  lemma RecordWhole(env: Schema, m: nat, key: nat, st: State, s: seq<byte>)
    requires m < |env| && DecodeRecord(env, m, key, st, s).Got?
    requires |st.cells| == NumSlots(env[m]) && WholeButOne(env[m], st)
    ensures |DecodeRecord(env, m, key, st, s).v.cells| == |st.cells|
    ensures WholeButOne(env[m], DecodeRecord(env, m, key, st, s).v)
  {
    hide DecodeField, NumSlots, SlotOf;
    if FindTag(env[m], key / 8).Some? {
      var i := FindTag(env[m], key / 8).value;
      EnterWhole(env[m], st, i);
      FieldWhole(env, m, i, key % 8, MarkSeen(env[m], EnterFixed(env[m], st, i).value, i), s);
    }
  }

  lemma {:induction false} RunWhole(env: Schema, m: nat, st: State, s: seq<byte>)
    requires m < |env| && !Run(env, m, st, s).Failed?
    requires |st.cells| == NumSlots(env[m]) && WholeButOne(env[m], st)
    ensures WholeButOne(env[m], Run(env, m, st, s).st)
    decreases |s|
  {
    hide DecodeRecord, ReadKey, WholeButOne, NumSlots;
    if s != [] && ReadKey(s).Got? && ReadKey(s).v != 0 {
      var r := DecodeRecord(env, m, ReadKey(s).v, st, ReadKey(s).rest);
      RecordWhole(env, m, ReadKey(s).v, st, ReadKey(s).rest);
      RunWhole(env, m, r.v, r.rest);
    }
  }

  /** A decoded message has no fixed-count array that is filled in part. */
  lemma DecodedWhole(env: Schema, m: nat, cells: seq<Cell>, s: seq<byte>)
    requires m < |env| && |cells| == NumSlots(env[m]) && ArraysWhole(env[m], cells)
    requires DecodeMsg(env, m, cells, s).Got?
    ensures ArraysWhole(env[m], DecodeMsg(env, m, cells, s).v)
  {
    hide Run, NumSlots, SlotOf;
    RunWhole(env, m, Start(cells), s);
    var st := Run(env, m, Start(cells), s).st;
    forall i: nat | i < |env[m]| ensures WholeAt(env[m], st.cells, i) {
    }
  }
}
