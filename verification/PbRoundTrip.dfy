/**
  Encoding and decoding are inverse: for every static, callback-free descriptor
  and every message a struct can faithfully hold, whatever `pb_encode` writes is
  decoded by `pb_decode` to the same message.
*/
module PbRoundTrip {
  import opened Bits
  import opened Collections
  import opened PbWire
  import PbVarint32
  import opened PbTypes
  import opened PbEncodeSpec
  import opened PbDecodeSpec
  import opened PbRuns

  // ----- the messages the theorem is about -----

  predicate FitsSigned(i: int, n: nat) {
    if n == 1 then -0x80 <= i < 0x80
    else if n == 2 then -0x8000 <= i < 0x8000
    else if n == 4 then -0x8000_0000 <= i < 0x8000_0000
    else -0x8000_0000_0000_0000 <= i < 0x8000_0000_0000_0000
  }

  predicate FitsUnsigned(i: int, n: nat) {
    if n == 1 then 0 <= i < 0x100
    else if n == 2 then 0 <= i < 0x1_0000
    else if n == 4 then 0 <= i < 0x1_0000_0000
    else 0 <= i < 0x1_0000_0000_0000_0000
  }

  /** A number for which the member has enough bytes. */
  ghost predicate HasRoom(i: int, n: nat) {
    -(Pow2(8 * n) as int) < i < Pow2(8 * n)
  }

  /** A value of the field's C type; strings end before the end of their buffer. */
  ghost predicate FaithfulScalar(f: Field, v: Value) {
    match f.ltype
    case LBool => v.VBool? && f.dataSize > 0
    case LVarint => v.VInt? && FitsSigned(v.i, f.dataSize) && HasRoom(v.i, f.dataSize)
    case LUvarint => v.VInt? && FitsUnsigned(v.i, f.dataSize) && HasRoom(v.i, f.dataSize)
    case LSvarint => v.VInt? && FitsSigned(v.i, f.dataSize) && HasRoom(v.i, f.dataSize)
    case LFixed32 => v.VInt? && FitsUnsigned(v.i, 4) && HasRoom(v.i, f.dataSize)
    case LFixed64 => v.VInt? && FitsUnsigned(v.i, 8) && HasRoom(v.i, f.dataSize)
    case LBytes => v.VBytes?
    case LString => v.VBytes? && |v.bytes| < f.dataSize && forall i :: 0 <= i < |v.bytes| ==> v.bytes[i] != 0
    case LFixedLengthBytes => v.VBytes? && |v.bytes| == f.dataSize
    case LSubmessage => false
  }

  /** A value; the encoding of a submessage is shorter than 2^32 bytes. */
  ghost predicate FaithfulValue(env: StaticSchema, m: nat, f: Field, v: Value)
    requires StaticOk(m, f) && m <= |env|
    decreases m, 0
  {
    if f.ltype.LSubmessage? then
      && v.VMsg?
      && Faithful(env, f.ptr.id, v.cells)
      && |EncodeMsg(env, f.ptr.id, v.cells).bytes| < U32
    else FaithfulScalar(f, v)
  }

  /** A field's cell; what is absent holds its default. */
  ghost predicate FaithfulCell(env: StaticSchema, m: nat, f: Field, cell: Cell)
    requires StaticOk(m, f) && m <= |env|
    decreases m, 1
  {
    match f.htype
    case Required => cell.Plain? && FaithfulValue(env, m, f, cell.v)
    case Optional =>
      if f.sizeOffset != 0 then
        && cell.Opt?
        && (if cell.has then FaithfulValue(env, m, f, cell.v) else cell.v == DefaultValue(env, m, f))
      else cell.Plain? && FaithfulValue(env, m, f, cell.v) && !f.ptr.DefaultPtr?
    case Repeated =>
      && cell.Arr?
      && (f.FixedCount() ==> |cell.items| == f.arraySize)
      && (f.ltype.Packable() ==> |EncodePackedFrom(f, cell.items, 0).bytes| < U32)
      && forall k :: 0 <= k < |cell.items| ==> FaithfulValue(env, m, f, cell.items[k])
    case Oneof =>
      cell.Unset? || (cell.Union? && cell.which != 0 && (cell.which == f.tag ==> FaithfulValue(env, m, f, cell.v)))
  }

  ghost predicate FaithfulAt(env: StaticSchema, m: nat, cells: seq<Cell>, i: nat)
    requires m < |env| && i < |env[m]|
    decreases m, 2
  {
    StaticField(env, m, i);
    FaithfulCell(env, m, env[m][i], CellAt(cells, SlotOf(env[m], i)))
  }

  /** The which_ member of a union names one of the union's own fields. */
  ghost predicate UnionKnown(fields: seq<Field>, cells: seq<Cell>, slot: nat) {
    slot < |cells| && cells[slot].Union? ==>
      exists i: nat :: i < |fields| && SlotOf(fields, i) == slot && fields[i].htype.Oneof? && fields[i].tag == cells[slot].which
  }

  /** A message whose struct satisfies the encoder's expectations. */
  ghost predicate Faithful(env: StaticSchema, m: nat, cells: seq<Cell>)
    requires m < |env|
    decreases m, 3
  {
    && |cells| == NumSlots(env[m])
    && (forall i: nat | i < |env[m]| :: FaithfulAt(env, m, cells, i))
    && (forall slot: nat | slot < |cells| :: UnionKnown(env[m], cells, slot))
  }

  // ----- scalars -----

  lemma SignedRead(f: Field, i: int)
    requires IntSize(f.dataSize) && FitsSigned(i, f.dataSize)
    ensures DecodeSigned(f, Word64(i)) == Some(i)
  {
    SignedCastFits(i, f.dataSize);
    if f.dataSize == 8 {
      SignedCastWord(i, 8);
    } else {
      SignedCastWord(i, 4);
    }
  }

  lemma SignedCastFits(i: int, n: nat)
    requires FitsSigned(i, n)
    ensures SignedCast(i, n) == i
  {
  }

  lemma SignedCastWord(i: int, n: nat)
    requires (n == 4 || n == 8) && FitsSigned(i, n)
    ensures SignedCast(Word64(i), n) == i
  {
    if i >= 0 {
    } else {
      assert Word64(i) == i + 0x1_0000_0000_0000_0000;
      if n == 4 {
        AddMultiple(i + 0x8000_0000, 0x1_0000_0000, 0x1_0000_0000);
      } else {
        AddMultiple(i + 0x8000_0000_0000_0000, 1, 0x1_0000_0000_0000_0000);
      }
    }
  }

  lemma IntRoundTrip(f: Field, v: Value, t: seq<byte>)
    requires f.ltype.LVarint? || f.ltype.LUvarint? || f.ltype.LSvarint?
    requires FaithfulScalar(f, v) && EncodeScalar(f, v).ok
    ensures DecodeScalar(f, EncodeScalar(f, v).bytes + t) == Got(v, t)
  {
    hide VarintBytes, ReadVarint;
    match f.ltype
    case LVarint =>
      VarintRoundTrip(Word64(v.i), t);
      SignedRead(f, v.i);
    case LUvarint =>
      VarintRoundTrip(Word64(v.i), t);
    case LSvarint =>
      assert 0 <= ZigZag(v.i) < U64 && UnZigZag(ZigZag(v.i)) == v.i by { ZigZagRoundTrip(v.i); }
      VarintRoundTrip(ZigZag(v.i), t);
      SignedCastFits(v.i, f.dataSize);
  }

  lemma FixedWidthRoundTrip(f: Field, v: Value, t: seq<byte>)
    requires f.ltype.LFixed32? || f.ltype.LFixed64?
    requires FaithfulScalar(f, v)
    ensures DecodeScalar(f, EncodeScalar(f, v).bytes + t) == Got(v, t)
  {
    var n := if f.ltype.LFixed32? then 4 else 8;
    var b := FixedBytes(v.i, n);
    assert v.i < Pow2(8 * n) by { Pow2Values(); }
    FixedRoundTrip(v.i, n);
    assert (b + t)[..n] == b && (b + t)[n..] == t;
  }

  /** A length-delimited payload is read back as a substream. */
  lemma BytesRoundTrip(m: nat, f: Field, v: Value, t: seq<byte>)
    requires StaticOk(m, f)
    requires f.ltype.LBytes? || f.ltype.LString? || f.ltype.LFixedLengthBytes?
    requires FaithfulScalar(f, v) && EncodeScalar(f, v).ok
    ensures DecodeScalar(f, EncodeScalar(f, v).bytes + t) == Got(v, t)
  {
    hide Delimited, ReadVarint32;
    var b := v.bytes;
    assert |b| <= f.dataSize;
    DelimitedRead(b, t);
    if f.ltype.LString? {
      assert StrLen(b, f.dataSize) == |b|;
      assert b[..|b|] == b;
    }
    if f.ltype.LFixedLengthBytes? && |b| == 0 {
      assert b == seq(f.dataSize, _ => 0);
      assert b + t == t;
    }
  }

  lemma BoolRoundTrip(f: Field, v: Value, t: seq<byte>)
    requires f.ltype.LBool? && FaithfulScalar(f, v)
    ensures DecodeScalar(f, EncodeScalar(f, v).bytes + t) == Got(v, t)
  {
    PbVarint32.Varint32Ranges(if v.b then 1 else 0, t);
  }

  lemma ScalarRoundTrip(m: nat, f: Field, v: Value, t: seq<byte>)
    requires StaticOk(m, f) && FaithfulScalar(f, v) && EncodeScalar(f, v).ok
    ensures DecodeScalar(f, EncodeScalar(f, v).bytes + t) == Got(v, t)
    ensures EncodeScalar(f, v).bytes != []
  {
    hide EncodeScalar, DecodeScalar;
    match f.ltype {
      case LBool => BoolRoundTrip(f, v, t);
      case LVarint => IntRoundTrip(f, v, t);
      case LUvarint => IntRoundTrip(f, v, t);
      case LSvarint => IntRoundTrip(f, v, t);
      case LFixed32 => FixedWidthRoundTrip(f, v, t);
      case LFixed64 => FixedWidthRoundTrip(f, v, t);
      case _ => BytesRoundTrip(m, f, v, t);
    }
    ScalarNonempty(f, v);
  }

  lemma ScalarNonempty(f: Field, v: Value)
    requires EncodeScalar(f, v).ok
    ensures EncodeScalar(f, v).bytes != []
  {
  }

  // ----- what is absent equals its default -----

  lemma {:induction false} SlotHasField(fields: seq<Field>, slot: nat, n: nat) returns (i: nat)
    requires 0 < n <= |fields| && slot <= SlotOf(fields, n - 1)
    ensures i < n && SlotOf(fields, i) == slot
  {
    if slot == SlotOf(fields, n - 1) {
      i := n - 1;
    } else {
      i := SlotHasField(fields, slot, n - 1);
    }
  }

  lemma {:induction false} AllDefaultAt(env: StaticSchema, m: nat, cells: seq<Cell>, i: nat, j: nat)
    requires m < |env| && i <= j < |env[m]| && AllDefaultFrom(env, m, cells, i)
    ensures StaticOk(m, env[m][j]) && IsDefault(env, m, env[m][j], CellAt(cells, SlotOf(env[m], j)))
    decreases j - i
  {
    StaticField(env, m, i);
    if i < j {
      AllDefaultAt(env, m, cells, i + 1, j);
    }
  }

  /** All bytes of a member are zero exactly when its value is. */
  lemma ZeroMember(f: Field, v: Value)
    requires v.VBool? || v.VInt?
    requires if v.VBool? then f.dataSize > 0 else HasRoom(v.i, f.dataSize)
    ensures AllZero(MemberBytes(f, v)) <==> (if v.VBool? then !v.b else v.i == 0)
  {
    var x := if v.VBool? then (if v.b then 1 else 0) else v.i;
    var p := Pow2(8 * f.dataSize);
    if v.VBool? {
      Pow2Monotone(1, 8 * f.dataSize);
    }
    ZeroResidue(x, p);
    ZeroBytes(x % p, f.dataSize);
  }

  lemma ZeroResidue(x: int, p: int)
    requires -p < x < p
    ensures 0 <= x % p < p
    ensures x % p == 0 <==> x == 0
  {
    if x < 0 {
      ModUnique(x, p, -1, x + p);
    } else {
      ModUnique(x, p, 0, x);
    }
  }

  lemma {:induction false} ZeroBytes(w: nat, n: nat)
    requires w < Pow2(8 * n)
    ensures AllZero(FixedBytes(w, n)) <==> w == 0
  {
    if n > 0 {
      Pow2Byte(n - 1);
      hide Pow2;
      ZeroBytes(w / 256, n - 1);
      var b := FixedBytes(w, n);
      assert b[1..] == FixedBytes(w / 256, n - 1);
      assert AllZero(b) <==> b[0] == 0 && AllZero(b[1..]) by { ZeroCons(b); }
    }
  }

  lemma ZeroCons(b: seq<byte>)
    requires b != []
    ensures AllZero(b) <==> b[0] == 0 && AllZero(b[1..])
  {
    if b[0] == 0 && AllZero(b[1..]) {
      forall k | 0 <= k < |b| ensures b[k] == 0 {
        assert k > 0 ==> b[k] == b[1..][k - 1];
      }
    }
    if AllZero(b) {
      assert forall k :: 0 <= k < |b[1..]| ==> b[1..][k] == b[k + 1];
    }
  }

  lemma {:induction false} DefaultCellEqual(env: StaticSchema, m: nat, f: Field, cell: Cell)
    requires StaticOk(m, f) && m <= |env|
    requires IsDefault(env, m, f, cell) && FaithfulCell(env, m, f, cell)
    ensures cell == DefaultCell(env, m, f)
    decreases m, 0
  {
    if f.htype.Optional? && f.sizeOffset == 0 && f.ltype.LSubmessage? {
      DefaultMessageEqual(env, f.ptr.id, cell.v.cells);
    } else if f.htype.Optional? && f.sizeOffset == 0 && (cell.v.VInt? || cell.v.VBool?) {
      hide MemberBytes, HasRoom, AllZero;
      ZeroMember(f, cell.v);
    }
  }

  /** A faithful message that `pb_check_proto3_default_value` takes for empty is the default
      message. */
  lemma {:induction false} DefaultMessageEqual(env: StaticSchema, m: nat, cells: seq<Cell>)
    requires m < |env| && Faithful(env, m, cells) && AllDefaultFrom(env, m, cells, 0)
    ensures cells == Defaults(env, m)
    decreases m, 1
  {
    forall slot | 0 <= slot < |cells| ensures cells[slot] == Defaults(env, m)[slot] {
      var i := SlotHasField(env[m], slot, |env[m]|);
      AllDefaultAt(env, m, cells, 0, i);
      assert FaithfulAt(env, m, cells, i);
      DefaultCellEqual(env, m, env[m][i], cells[slot]);
      DefaultsAt(env, m, i);
    }
  }

  // ----- the message after the first `i` fields -----

  ghost predicate PresentAt(env: StaticSchema, m: nat, cells: seq<Cell>, i: nat)
    requires m < |env| && i < |env[m]|
  {
    StaticField(env, m, i);
    Present(env, m, env[m][i], CellAt(cells, SlotOf(env[m], i)))
  }

  /** The destination when the records of the first `i` fields have been decoded. */
  ghost function Partial(env: StaticSchema, m: nat, cells: seq<Cell>, i: nat): (r: seq<Cell>)
    requires m < |env| && i <= |env[m]|
    ensures |r| == NumSlots(env[m])
  {
    if i == 0 then Defaults(env, m)
    else
      var before := Partial(env, m, cells, i - 1);
      var slot := SlotOf(env[m], i - 1);
      if PresentAt(env, m, cells, i - 1) then SetCell(before, slot, CellAt(cells, slot)) else before
  }

  lemma {:induction false} PartialAt(env: StaticSchema, m: nat, cells: seq<Cell>, i: nat, slot: nat)
    requires m < |env| && i <= |env[m]| && |cells| == NumSlots(env[m]) && slot < |cells|
    ensures (exists j: nat :: j < i && SlotOf(env[m], j) == slot && PresentAt(env, m, cells, j)) ==>
              Partial(env, m, cells, i)[slot] == cells[slot]
    ensures (forall j: nat :: j < i && SlotOf(env[m], j) == slot ==> !PresentAt(env, m, cells, j)) ==>
              Partial(env, m, cells, i)[slot] == Defaults(env, m)[slot]
  {
    if i > 0 {
      PartialAt(env, m, cells, i - 1, slot);
    }
  }

  /** A field about to be decoded finds its default. */
  lemma FreshCell(env: StaticSchema, m: nat, cells: seq<Cell>, i: nat)
    requires m < |env| && i < |env[m]| && |cells| == NumSlots(env[m])
    requires PresentAt(env, m, cells, i)
    ensures SlotOf(env[m], i) < |cells|
    ensures StaticOk(m, env[m][i])
    ensures Partial(env, m, cells, i)[SlotOf(env[m], i)] == DefaultCell(env, m, env[m][i])
  {
    var slot := SlotOf(env[m], i);
    assert DescriptorOk(m, env[m]);
    StaticField(env, m, i);
    SlotBound(env[m], i);
    forall j: nat | j < i && SlotOf(env[m], j) == slot ensures !PresentAt(env, m, cells, j) {
      SharedSlotIsUnion(env[m], j, i);
      StaticField(env, m, j);
    }
    PartialAt(env, m, cells, i, slot);
    DefaultsAt(env, m, i);
  }

  /** After all fields the destination is the message. */
  lemma PartialAll(env: StaticSchema, m: nat, cells: seq<Cell>)
    requires m < |env| && Faithful(env, m, cells)
    ensures Partial(env, m, cells, |env[m]|) == cells
  {
    var n := |env[m]|;
    forall slot: nat | slot < |cells| ensures Partial(env, m, cells, n)[slot] == cells[slot] {
      PartialAt(env, m, cells, n, slot);
      if forall j: nat :: j < n && SlotOf(env[m], j) == slot ==> !PresentAt(env, m, cells, j) {
        AbsentIsDefault(env, m, cells, slot);
      }
    }
  }

  lemma UnionPresent(env: StaticSchema, m: nat, cells: seq<Cell>, slot: nat)
    requires m < |env| && slot < |cells| && UnionKnown(env[m], cells, slot) && cells[slot].Union?
    ensures exists j: nat :: j < |env[m]| && SlotOf(env[m], j) == slot && PresentAt(env, m, cells, j)
  {
    var j: nat :| j < |env[m]| && SlotOf(env[m], j) == slot && env[m][j].htype.Oneof? && env[m][j].tag == cells[slot].which;
    StaticField(env, m, j);
    assert PresentAt(env, m, cells, j);
  }

  lemma AbsentIsDefault(env: StaticSchema, m: nat, cells: seq<Cell>, slot: nat)
    requires m < |env| && Faithful(env, m, cells) && slot < |cells|
    requires forall j: nat :: j < |env[m]| && SlotOf(env[m], j) == slot ==> !PresentAt(env, m, cells, j)
    ensures cells[slot] == Defaults(env, m)[slot]
  {
    var i := SlotHasField(env[m], slot, |env[m]|);
    var f := env[m][i];
    assert StaticOk(m, f);
    assert FaithfulAt(env, m, cells, i);
    assert !PresentAt(env, m, cells, i);
    assert FaithfulCell(env, m, f, cells[slot]);
    DefaultsAt(env, m, i);
    if f.htype.Oneof? {
      if cells[slot].Union? {
        UnionPresent(env, m, cells, slot);
      }
    } else if f.htype.Optional? && f.sizeOffset == 0 {
      DefaultCellEqual(env, m, f, cells[slot]);
    }
  }

  // ----- progress of the decoder -----

  /** Before the records of field `i` are decoded. */
  ghost predicate Progress(env: StaticSchema, m: nat, cells: seq<Cell>, i: nat, st: State)
    requires m < |env| && i <= |env[m]|
  {
    && st.cells == Partial(env, m, cells, i)
    && FixedDone(env[m], i, st)
    && SeenUpTo(env[m], i, st)
  }

  ghost predicate FixedDone(fields: seq<Field>, i: nat, st: State)
    requires i <= |fields|
  {
    st.fixedField.Some? ==> st.fixedField.value < i && st.fixedSize == fields[st.fixedField.value].arraySize
  }

  ghost predicate SeenUpTo(fields: seq<Field>, i: nat, st: State)
    requires i <= |fields|
  {
    forall k: nat | k < RequiredBefore(fields, i) && k < PB_MAX_REQUIRED_FIELDS :: k in st.seen
  }

  /** A record of field `i` whose payload decodes completely. */
  lemma RunRecord(env: StaticSchema, m: nat, i: nat, wireType: nat, st: State, payload: seq<byte>, st1: State, st2: State)
    requires m < |env| && i < |env[m]| && wireType < 8
    requires EnterFixed(env[m], st, i) == Some(st1)
    requires DecodeField(env, m, i, wireType, MarkSeen(env[m], st1, i), payload) == Got(st2, [])
    ensures Run(env, m, st, TagBytes(wireType, env[m][i].tag) + payload) == Ended(st2)
  {
    assert DescriptorOk(m, env[m]);
    StaticField(env, m, i);
    TagRead(env[m][i].tag, wireType, payload);
    FindOwnTag(m, env[m], i);
    hide DecodeField;
    RunStep(env, m, st, TagBytes(wireType, env[m][i].tag) + payload);
  }

  // ----- the records of one field -----

  /** The array of field `i` when `k` of its entries have been decoded. */
  ghost predicate ArrayProgress(env: StaticSchema, m: nat, cells: seq<Cell>, i: nat, k: nat, st: State)
    requires m < |env| && i < |env[m]|
  {
    var f, slot := env[m][i], SlotOf(env[m], i);
    var items := CellAt(cells, slot).Items();
    && k <= |items|
    && st.cells == SetCell(Partial(env, m, cells, i), slot, Arr(items[..k]))
    && (if f.FixedCount() && k > 0 then st.fixedField == Some(i) && st.fixedSize == k
        else FixedDone(env[m], i, st))
    && SeenUpTo(env[m], i, st)
  }

  lemma ArrayStart(env: StaticSchema, m: nat, cells: seq<Cell>, i: nat, st: State)
    requires m < |env| && i < |env[m]| && Faithful(env, m, cells)
    requires env[m][i].htype.Repeated? && PresentAt(env, m, cells, i)
    requires Progress(env, m, cells, i, st)
    ensures ArrayProgress(env, m, cells, i, 0, st)
  {
    FreshCell(env, m, cells, i);
    var slot := SlotOf(env[m], i);
    var p := Partial(env, m, cells, i);
    assert p[slot := Arr([])] == p;
  }

  lemma ArrayFaithful(env: StaticSchema, m: nat, cells: seq<Cell>, i: nat)
    requires m < |env| && i < |env[m]| && Faithful(env, m, cells) && env[m][i].htype.Repeated?
    ensures StaticOk(m, env[m][i])
    ensures FaithfulCell(env, m, env[m][i], CellAt(cells, SlotOf(env[m], i)))
  {
    StaticField(env, m, i);
    assert FaithfulAt(env, m, cells, i);
  }

  lemma PartialNext(env: StaticSchema, m: nat, cells: seq<Cell>, i: nat)
    requires m < |env| && i < |env[m]|
    ensures Partial(env, m, cells, i + 1) ==
            if PresentAt(env, m, cells, i)
            then SetCell(Partial(env, m, cells, i), SlotOf(env[m], i), CellAt(cells, SlotOf(env[m], i)))
            else Partial(env, m, cells, i)
  {
  }

  lemma RequiredNext(fields: seq<Field>, i: nat)
    requires i < |fields|
    ensures RequiredBefore(fields, i + 1) == RequiredBefore(fields, i) + (if fields[i].htype.Required? then 1 else 0)
  {
  }

  lemma ArrayDone(env: StaticSchema, m: nat, cells: seq<Cell>, i: nat, st: State)
    requires m < |env| && i < |env[m]| && Faithful(env, m, cells)
    requires env[m][i].htype.Repeated? && PresentAt(env, m, cells, i)
    requires ArrayProgress(env, m, cells, i, |CellAt(cells, SlotOf(env[m], i)).Items()|, st)
    ensures Progress(env, m, cells, i + 1, st)
  {
    StaticField(env, m, i);
    var cell := CellAt(cells, SlotOf(env[m], i));
    ArrayFaithful(env, m, cells, i);
    assert cell.items[..|cell.items|] == cell.items;
    hide Partial, EncodePackedFrom, RequiredBefore;
    assert st.cells == Partial(env, m, cells, i + 1) by { PartialNext(env, m, cells, i); }
    assert FixedDone(env[m], i + 1, st);
    assert SeenUpTo(env[m], i + 1, st) by { RequiredNext(env[m], i); }
  }

  /** Entering an array's record, whose next entry is the `k`-th. */
  lemma ArrayEnter(env: StaticSchema, m: nat, cells: seq<Cell>, i: nat, k: nat, st: State) returns (st1: State)
    requires m < |env| && i < |env[m]| && |cells| == NumSlots(env[m])
    requires env[m][i].htype.Repeated?
    requires ArrayProgress(env, m, cells, i, k, st)
    ensures EnterFixed(env[m], st, i) == Some(st1) && MarkSeen(env[m], st1, i) == st1
    ensures st1.cells == st.cells && st1.seen == st.seen
    ensures CellAt(st1.cells, SlotOf(env[m], i)) == Arr(CellAt(cells, SlotOf(env[m], i)).Items()[..k])
    ensures CountOf(env[m][i], st1, CellAt(st1.cells, SlotOf(env[m], i)).Items()) == k
    ensures if env[m][i].FixedCount() then st1.fixedField == Some(i) else st1 == st
  {
    SlotBound(env[m], i);
    st1 := EnterFixed(env[m], st, i).value;
  }

  /** A packed array's data, from entry `k` on, fills the array. */
  lemma {:induction false} PackedRoundTrip(m: nat, f: Field, items: seq<Value>, k: nat)
    requires StaticOk(m, f) && k <= |items| <= f.arraySize
    requires forall j :: 0 <= j < |items| ==> FaithfulScalar(f, items[j])
    requires EncodePackedFrom(f, items, k).ok
    ensures DecodePacked(f, items[..k], k, EncodePackedFrom(f, items, k).bytes) == PackedOk(items, |items|)
    decreases |items| - k
  {
    hide EncodeScalar, DecodeScalar, FaithfulScalar, StaticOk;
    if k == |items| {
      assert items[..k] == items;
    } else {
      ScalarRoundTrip(m, f, items[k], EncodePackedFrom(f, items, k + 1).bytes);
      PackedRoundTrip(m, f, items, k + 1);
      assert PutItem(items[..k], k, items[k]) == items[..k + 1];
    }
  }

  /** Storing `items` as the array of field `i`. */
  lemma StoreArray(env: StaticSchema, m: nat, cells: seq<Cell>, i: nat, k: nat, k': nat, st: State, st1: State)
    requires m < |env| && i < |env[m]| && |cells| == NumSlots(env[m])
    requires env[m][i].htype.Repeated?
    requires ArrayProgress(env, m, cells, i, k, st) && k < k' <= |CellAt(cells, SlotOf(env[m], i)).Items()|
    requires st1.cells == st.cells && st1.seen == st.seen
    requires if env[m][i].FixedCount() then st1.fixedField == Some(i) else st1 == st
    ensures ArrayProgress(env, m, cells, i, k',
              PutArray(env[m][i], st1, SlotOf(env[m], i), CellAt(cells, SlotOf(env[m], i)).Items()[..k'], k'))
  {
    SlotBound(env[m], i);
    var slot := SlotOf(env[m], i);
    var p := Partial(env, m, cells, i);
    var items := CellAt(cells, slot).Items();
    assert p[slot := Arr(items[..k])][slot := Arr(items[..k'])] == p[slot := Arr(items[..k'])];
  }

  lemma PackedField(env: StaticSchema, m: nat, cells: seq<Cell>, i: nat, st: State) returns (st': State)
    requires m < |env| && i < |env[m]| && Faithful(env, m, cells)
    requires env[m][i].htype.Repeated? && env[m][i].ltype.Packable() && StaticOk(m, env[m][i])
    requires Progress(env, m, cells, i, st)
    requires PresentAt(env, m, cells, i)
    requires EncodeField(env, m, env[m][i], CellAt(cells, SlotOf(env[m], i))).ok
    ensures Run(env, m, st, EncodeField(env, m, env[m][i], CellAt(cells, SlotOf(env[m], i))).bytes) == Ended(st')
    ensures Progress(env, m, cells, i + 1, st')
  {
    var f, slot := env[m][i], SlotOf(env[m], i);
    var items := CellAt(cells, slot).Items();
    ArrayFaithful(env, m, cells, i);
    forall k | 0 <= k < |items| ensures FaithfulScalar(f, items[k]) {
      assert FaithfulValue(env, m, f, items[k]);
    }
    ArrayStart(env, m, cells, i, st);
    var st1 := ArrayEnter(env, m, cells, i, 0, st);
    var data := EncodePackedFrom(f, items, 0).bytes;
    st' := PutArray(f, st1, slot, items, |items|);
    assert DecodePackedField(f, st1, slot, Delimited(data)) == Got(st', []) by {
      PackedRoundTrip(m, f, items, 0);
      assert items[..0] == [];
      DelimitedRead(data, []);
      assert Delimited(data) + [] == Delimited(data);
    }
    assert items[..|items|] == items;
    StoreArray(env, m, cells, i, 0, |items|, st, st1);
    hide Delimited, EncodePackedFrom, DecodePackedField, PutArray;
    RunRecord(env, m, i, WT_STRING, st, Delimited(data), st1, st');
    ArrayDone(env, m, cells, i, st');
  }

  // ----- the induction over nesting, fields and entries -----

  /** One value, read back from a stream that goes on after it. */
  lemma {:induction false} ValueRoundTrip(env: StaticSchema, m: nat, f: Field, v: Value, init: Value, t: seq<byte>)
    requires StaticOk(m, f) && m <= |env|
    requires FaithfulValue(env, m, f, v) && EncodeValue(env, m, f, v).ok
    requires f.ltype.LSubmessage? ==> init.AsCells() == Defaults(env, f.ptr.id)
    ensures DecodeValue(env, m, f, init, EncodeValue(env, m, f, v).bytes + t) == Got(v, t)
    decreases m, 0, 0, 0
  {
    if f.ltype.LSubmessage? {
      MessageRoundTrip(env, f.ptr.id, v.cells);
      var body := EncodeMsg(env, f.ptr.id, v.cells).bytes;
      DelimitedRead(body, t);
    } else {
      ScalarRoundTrip(m, f, v, t);
    }
  }

  /** The entries of an unpacked array from the `k`-th on. */
  lemma {:induction false} UnpackedField(env: StaticSchema, m: nat, cells: seq<Cell>, i: nat, k: nat, st: State)
      returns (st': State)
    requires m < |env| && i < |env[m]| && Faithful(env, m, cells)
    requires StaticOk(m, env[m][i]) && env[m][i].htype.Repeated? && !env[m][i].ltype.Packable()
    requires ArrayProgress(env, m, cells, i, k, st)
    requires |CellAt(cells, SlotOf(env[m], i)).Items()| <= env[m][i].arraySize
    requires EncodeUnpackedFrom(env, m, env[m][i], CellAt(cells, SlotOf(env[m], i)).Items(), k).ok
    ensures Run(env, m, st, EncodeUnpackedFrom(env, m, env[m][i], CellAt(cells, SlotOf(env[m], i)).Items(), k).bytes) == Ended(st')
    ensures ArrayProgress(env, m, cells, i, |CellAt(cells, SlotOf(env[m], i)).Items()|, st')
    decreases m, 1, 0, |CellAt(cells, SlotOf(env[m], i)).Items()| - k
  {
    var f := env[m][i];
    var items := CellAt(cells, SlotOf(env[m], i)).Items();
    if k == |items| {
      st' := st;
    } else {
      var st1 := ArrayEntry(env, m, cells, i, k, st);
      st' := UnpackedField(env, m, cells, i, k + 1, st1);
      var a := EncodeRecord(env, m, f, items[k]).bytes;
      var b := EncodeUnpackedFrom(env, m, f, items, k + 1).bytes;
      hide Run, EncodeRecord, ArrayProgress;
      RunAppend(env, m, st, a, b);
    }
  }

  lemma {:induction false} ArrayEntry(env: StaticSchema, m: nat, cells: seq<Cell>, i: nat, k: nat, st: State)
      returns (st': State)
    requires m < |env| && i < |env[m]| && Faithful(env, m, cells)
    requires StaticOk(m, env[m][i]) && env[m][i].htype.Repeated? && !env[m][i].ltype.Packable()
    requires ArrayProgress(env, m, cells, i, k, st)
    requires k < |CellAt(cells, SlotOf(env[m], i)).Items()| <= env[m][i].arraySize
    requires EncodeRecord(env, m, env[m][i], CellAt(cells, SlotOf(env[m], i)).Items()[k]).ok
    ensures Run(env, m, st, EncodeRecord(env, m, env[m][i], CellAt(cells, SlotOf(env[m], i)).Items()[k]).bytes) == Ended(st')
    ensures ArrayProgress(env, m, cells, i, k + 1, st')
    decreases m, 0, 1, 0
  {
    hide Faithful, FaithfulValue, FaithfulCell, FaithfulAt, DecodeValue, EncodeValue, Run, Defaults, DefaultCell, Partial, ArrayProgress;
    FaithfulSize(env, m, cells);
    var f, slot := env[m][i], SlotOf(env[m], i);
    var items := CellAt(cells, slot).Items();
    ArrayFaithful(env, m, cells, i);
    assert FaithfulValue(env, m, f, items[k]);
    var st1 := ArrayEnter(env, m, cells, i, k, st);
    var payload := EncodeValue(env, m, f, items[k]).bytes;
    st' := PutArray(f, st1, slot, items[..k + 1], k + 1);
    assert DecodeField(env, m, i, WireTypeOf(f.ltype), st1, payload) == Got(st', []) by {
      ValueRoundTrip(env, m, f, items[k], OldContent(env, m, f, CellAt(st1.cells, slot)), []);
      assert payload + [] == payload;
      assert PutItem(items[..k], k, items[k]) == items[..k + 1];
    }
    StoreArray(env, m, cells, i, k, k + 1, st, st1);
    hide DecodeField, PutArray;
    RunRecord(env, m, i, WireTypeOf(f.ltype), st, payload, st1, st');
  }

  lemma FaithfulSize(env: StaticSchema, m: nat, cells: seq<Cell>)
    requires m < |env| && Faithful(env, m, cells)
    ensures |cells| == NumSlots(env[m])
  {
  }

  /** A field that is not an array. */
  lemma {:induction false} SingleField(env: StaticSchema, m: nat, cells: seq<Cell>, i: nat, st: State) returns (st': State)
    requires m < |env| && i < |env[m]| && Faithful(env, m, cells)
    requires StaticOk(m, env[m][i]) && !env[m][i].htype.Repeated? && PresentAt(env, m, cells, i)
    requires Progress(env, m, cells, i, st)
    requires EncodeRecord(env, m, env[m][i], CellAt(cells, SlotOf(env[m], i)).Content()).ok
    ensures Run(env, m, st, EncodeRecord(env, m, env[m][i], CellAt(cells, SlotOf(env[m], i)).Content()).bytes) == Ended(st')
    ensures Progress(env, m, cells, i + 1, st')
    decreases m, 0, 1, 0
  {
    hide Faithful, FaithfulValue, FaithfulCell, FaithfulAt, DecodeValue, DecodeField, EncodeValue, Run, Defaults, DefaultCell, Partial;
    FaithfulSize(env, m, cells);
    var f, slot := env[m][i], SlotOf(env[m], i);
    var cell := CellAt(cells, slot);
    var v := cell.Content();
    PresentFaithful(env, m, cells, i);
    FreshCell(env, m, cells, i);
    var st1 := MarkSeen(env[m], st, i);
    var payload := EncodeValue(env, m, f, v).bytes;
    st' := st1.(cells := SetCell(st.cells, slot, cell));
    OldContentIsDefault(env, m, f);
    ValueRoundTrip(env, m, f, v, OldContent(env, m, f, CellAt(st1.cells, slot)), []);
    assert payload + [] == payload;
    SingleDecodes(env, m, i, st1, v, payload);
    assert EnterFixed(env[m], st, i) == Some(st);
    RunRecord(env, m, i, WireTypeOf(f.ltype), st, payload, st, st');
    assert Progress(env, m, cells, i + 1, st') by {
      PartialNext(env, m, cells, i);
      RequiredNext(env[m], i);
    }
  }

  /** A field without array whose cell holds its default and whose payload decodes to `v`. */
  lemma SingleDecodes(env: StaticSchema, m: nat, i: nat, st: State, v: Value, payload: seq<byte>)
    requires m < |env| && i < |env[m]| && StaticOk(m, env[m][i]) && !env[m][i].htype.Repeated?
    requires var f, cell := env[m][i], CellAt(st.cells, SlotOf(env[m], i));
      cell == DefaultCell(env, m, f) && DecodeValue(env, m, f, OldContent(env, m, f, cell), payload) == Got(v, [])
    ensures DecodeField(env, m, i, WireTypeOf(env[m][i].ltype), st, payload) ==
            Got(st.(cells := SetCell(st.cells, SlotOf(env[m], i), StoreValue(env[m][i], v))), [])
  {
    hide DecodeValue, OldContent;
  }

  lemma OldContentIsDefault(env: StaticSchema, m: nat, f: Field)
    requires StaticOk(m, f) && m <= |env| && !f.htype.Repeated?
    ensures f.ltype.LSubmessage? ==>
              OldContent(env, m, f, DefaultCell(env, m, f)).AsCells() == Defaults(env, f.ptr.id)
  {
  }

  /** What a present field holds, and that decoding stores it as the same cell. */
  lemma PresentFaithful(env: StaticSchema, m: nat, cells: seq<Cell>, i: nat)
    requires m < |env| && i < |env[m]| && Faithful(env, m, cells)
    requires !env[m][i].htype.Repeated? && PresentAt(env, m, cells, i)
    ensures StaticOk(m, env[m][i])
    ensures var f, cell := env[m][i], CellAt(cells, SlotOf(env[m], i));
      FaithfulValue(env, m, f, cell.Content()) && StoreValue(f, cell.Content()) == cell
  {
    StaticField(env, m, i);
    assert FaithfulAt(env, m, cells, i);
    assert FaithfulCell(env, m, env[m][i], CellAt(cells, SlotOf(env[m], i)));
  }

  /** All records of field `i`. */
  lemma {:induction false} FieldRoundTrip(env: StaticSchema, m: nat, cells: seq<Cell>, i: nat, st: State)
      returns (st': State)
    requires m < |env| && i < |env[m]| && Faithful(env, m, cells) && StaticOk(m, env[m][i])
    requires Progress(env, m, cells, i, st)
    requires EncodeField(env, m, env[m][i], CellAt(cells, SlotOf(env[m], i))).ok
    ensures Run(env, m, st, EncodeField(env, m, env[m][i], CellAt(cells, SlotOf(env[m], i))).bytes) == Ended(st')
    ensures Progress(env, m, cells, i + 1, st')
    decreases m, 2, 0, 0
  {
    var f, cell := env[m][i], CellAt(cells, SlotOf(env[m], i));
    if !PresentAt(env, m, cells, i) {
      AbsentField(env, m, cells, i, st);
      st' := st;
    } else if !f.htype.Repeated? {
      st' := SingleField(env, m, cells, i, st);
    } else if f.ltype.Packable() {
      st' := PackedField(env, m, cells, i, st);
    } else {
      ArrayStart(env, m, cells, i, st);
      st' := UnpackedField(env, m, cells, i, 0, st);
      ArrayDone(env, m, cells, i, st');
    }
  }

  lemma AbsentField(env: StaticSchema, m: nat, cells: seq<Cell>, i: nat, st: State)
    requires m < |env| && i < |env[m]| && StaticOk(m, env[m][i]) && !PresentAt(env, m, cells, i)
    requires Progress(env, m, cells, i, st)
    ensures EncodeField(env, m, env[m][i], CellAt(cells, SlotOf(env[m], i))) == NOTHING
    ensures Run(env, m, st, []) == Ended(st)
    ensures Progress(env, m, cells, i + 1, st)
  {
    PartialNext(env, m, cells, i);
    RequiredNext(env[m], i);
  }

  /** All records from field `i` on. */
  lemma {:induction false} FieldsRoundTrip(env: StaticSchema, m: nat, cells: seq<Cell>, i: nat, st: State)
      returns (st': State)
    requires m < |env| && i <= |env[m]| && Faithful(env, m, cells)
    requires Progress(env, m, cells, i, st)
    requires EncodeFrom(env, m, cells, i).ok
    ensures Run(env, m, st, EncodeFrom(env, m, cells, i).bytes) == Ended(st')
    ensures Progress(env, m, cells, |env[m]|, st')
    decreases m, 3, |env[m]| - i, 0
  {
    if i == |env[m]| {
      st' := st;
    } else {
      StaticField(env, m, i);
      var st1 := FieldRoundTrip(env, m, cells, i, st);
      st' := FieldsRoundTrip(env, m, cells, i + 1, st1);
      var a := EncodeField(env, m, env[m][i], CellAt(cells, SlotOf(env[m], i))).bytes;
      var b := EncodeFrom(env, m, cells, i + 1).bytes;
      hide Run, EncodeField, Progress, Faithful;
      RunAppend(env, m, st, a, b);
    }
  }

  /** Whatever `pb_encode` writes for a faithful message, `pb_decode` reads back: it
      succeeds, consumes everything and rebuilds the same message. */
  lemma {:induction false} MessageRoundTrip(env: StaticSchema, m: nat, cells: seq<Cell>)
    requires m < |env| && Faithful(env, m, cells)
    requires EncodeMsg(env, m, cells).ok
    ensures Decode(env, m, EncodeMsg(env, m, cells).bytes) == Got(cells, [])
    decreases m, 4, 0, 0
  {
    var start := Start(Defaults(env, m));
    assert Progress(env, m, cells, 0, start);
    var st := FieldsRoundTrip(env, m, cells, 0, start);
    PartialAll(env, m, cells);
    hide Run, EncodeFrom, Partial, Faithful;
    assert Complete(env[m], st);
  }
}
