/**
  pb_encode.c: the encoder over an output stream, proved to emit exactly what
  PbEncodeSpec says.  The same code sizes and writes, so a sizing pass counts
  precisely the bytes the writing pass stores.
*/
module PbEncode {
  import opened Bits
  import opened PbWire
  import opened PbTypes
  import opened PbCommon
  import opened PbEncodeSpec
  import opened PbOutput

  // ----- single values -----

  /** The length loop of `pb_enc_string`. */
  method MeasureString(b: seq<byte>, max: nat) returns (size: nat)
    ensures size == StrLen(b, max)
  {
    size := 0;
    while size < max && size < |b| && b[size] != 0
      invariant size <= |b| && size <= max
      invariant StrLen(b, max) == size + StrLen(b[size..], max - size)
    {
      assert b[size..][1..] == b[size + 1..];
      size := size + 1;
    }
  }

  /** `pb_enc_bytes`. */
  method EncBytes(stream: OStream, f: Field, v: Value) returns (ok: bool)
    requires stream.Valid() && f.ltype.LBytes? && f.dataSize <= PB_SIZE_MAX
    modifies stream, stream.buf
    ensures stream.Valid()
    ensures Took(old(stream.Snap()), stream.Snap(), EncodeScalar(f, v), ok)
  {
    hide Delimited;
    if |v.AsBytes()| > f.dataSize - BYTES_OFFSET {
      return false;
    }
    ok := EncodeString(stream, v.AsBytes());
  }

  /** `pb_enc_string`. */
  method EncString(stream: OStream, f: Field, v: Value) returns (ok: bool)
    requires stream.Valid() && f.ltype.LString? && f.dataSize <= PB_SIZE_MAX
    modifies stream, stream.buf
    ensures stream.Valid()
    ensures Took(old(stream.Snap()), stream.Snap(), EncodeScalar(f, v), ok)
  {
    hide Delimited, Took;
    var size := MeasureString(v.AsBytes(), f.dataSize);
    ok := EncodeString(stream, v.AsBytes()[..size]);
  }

  /** `pb_enc_svarint`. */
  method EncSvarint(stream: OStream, f: Field, v: Value) returns (ok: bool)
    requires stream.Valid() && f.ltype.LSvarint?
    modifies stream, stream.buf
    ensures stream.Valid()
    ensures Took(old(stream.Snap()), stream.Snap(), EncodeScalar(f, v), ok)
  {
    hide VarintBytes, ZigZag;
    if !IntSize(f.dataSize) {
      return false;
    }
    ok := EncodeSvarint(stream, Int64(v.AsInt()));
  }

  /** The `pb_enc_*` functions, except `pb_enc_submessage`. */
  method EncScalar(stream: OStream, m: nat, f: Field, v: Value) returns (ok: bool)
    requires stream.Valid() && StaticOk(m, f) && !f.ltype.LSubmessage?
    modifies stream, stream.buf
    ensures stream.Valid()
    ensures Took(old(stream.Snap()), stream.Snap(), EncodeScalar(f, v), ok)
  {
    hide VarintBytes, FixedBytes, Delimited, Took;
    match f.ltype
    case LBool => ok := EncodeVarint(stream, if v.AsBool() then 1 else 0);
    case LFixed32 => ok := EncodeFixed32(stream, Word32(v.AsInt()));
    case LFixed64 => ok := EncodeFixed64(stream, Word64(v.AsInt()));
    case LBytes => ok := EncBytes(stream, f, v);
    case LString => ok := EncString(stream, f, v);
    case LFixedLengthBytes => ok := EncodeString(stream, Inline(v.AsBytes(), f.dataSize));
    case LVarint => ok := EncInt(stream, f, Word64(v.AsInt()));
    case LUvarint => ok := EncInt(stream, f, Word64(v.AsInt()));
    case LSvarint => ok := EncSvarint(stream, f, v);
  }

  /** `pb_enc_varint` and `pb_enc_uvarint` on the value converted to 64 bits. */
  method EncInt(stream: OStream, f: Field, v: nat) returns (ok: bool)
    requires stream.Valid() && v < U64
    modifies stream, stream.buf
    ensures stream.Valid()
    ensures Took(old(stream.Snap()), stream.Snap(),
                 if IntSize(f.dataSize) then Emission(true, VarintBytes(v)) else FAILURE, ok)
  {
    if !IntSize(f.dataSize) {
      return false;
    }
    ok := EncodeVarint(stream, v);
  }

  /** `pb_encode_tag_for_field`. */
  method EncTag(stream: OStream, f: Field) returns (ok: bool)
    requires stream.Valid()
    modifies stream, stream.buf
    ensures stream.Valid()
    ensures Took(old(stream.Snap()), stream.Snap(), EncodeTag(f), ok)
  {
    ok := EncodeTagValue(stream, WireTypeOf(f.ltype), f.tag);
  }

  /** The functions of `PB_ENCODERS`. */
  method EncValue(stream: OStream, env: StaticSchema, m: nat, f: Field, v: Value) returns (ok: bool)
    requires stream.Valid() && StaticOk(m, f) && m <= |env|
    requires InRange(stream.Snap(), EncodeValue(env, m, f, v))
    modifies stream, stream.buf
    ensures stream.Valid()
    ensures Took(old(stream.Snap()), stream.Snap(), EncodeValue(env, m, f, v), ok)
    decreases m, 0, 1
  {
    if f.ltype.LSubmessage? {
      ok := EncSubmessage(stream, env, f.ptr.id, v.AsCells());
    } else {
      ok := EncScalar(stream, m, f, v);
    }
  }

  /** A message as a length-delimited value. */
  function SubmessageEmission(env: StaticSchema, m: nat, cells: seq<Cell>): Emission
    requires m < |env|
  {
    var body := EncodeMsg(env, m, cells);
    if body.ok then Emission(true, Delimited(body.bytes)) else FAILURE
  }

  lemma DelimitedSplit(body: seq<byte>)
    ensures Then(Emission(true, VarintBytes(Word64(|body|))), Emission(true, body)) == Emission(true, Delimited(body))
  {
  }

  lemma SizingInRange(stream: OStream, e: Emission)
    requires stream.sizing
    ensures InRange(stream.Snap(), e)
  {
  }

  /** An empty sizing stream has counted the emission. */
  lemma SizingTook(stream: OStream, e: Emission, ok: bool)
    requires stream.sizing && exists a: Snapshot :: a.sizing && a.bytesWritten == 0 && Took(a, stream.Snap(), e, ok)
    ensures ok == e.ok && (ok ==> stream.bytesWritten == Word64(|e.bytes|))
  {
  }

  lemma TookFailure(a: Snapshot)
    ensures Took(a, a, FAILURE, false)
  {
  }

  /** The body of a submessage behind its length. */
  method EncBody(stream: OStream, env: StaticSchema, m: nat, cells: seq<Cell>, size: nat) returns (ok: bool)
    requires stream.Valid() && m < |env|
    requires EncodeMsg(env, m, cells).ok && size == Word64(|EncodeMsg(env, m, cells).bytes|)
    requires InRange(stream.Snap(), EncodeMsg(env, m, cells))
    modifies stream, stream.buf
    ensures stream.Valid()
    ensures Took(old(stream.Snap()), stream.Snap(), EncodeMsg(env, m, cells), ok)
    decreases m, 5, 0
  {
    hide EncodeMsg;
    ghost var body := EncodeMsg(env, m, cells);
    if stream.sizing {
      Word64Add(stream.bytesWritten, |body.bytes|);
      stream.Count(size);
      return true;
    }
    if Word64(stream.bytesWritten + size) > stream.maxSize {
      return false;
    }
    var substream := new OStream.Within(stream, size);
    ok := Encode(substream, env, m, cells);
    stream.bytesWritten := stream.bytesWritten + substream.bytesWritten;
    stream.state := substream.state;
    if substream.bytesWritten != size {
      assert false;
    }
  }

  /** `pb_encode_submessage`: the body is sized, then its length and then the body itself
      are written; the second pass always agrees with the first. */
  method EncSubmessage(stream: OStream, env: StaticSchema, m: nat, cells: seq<Cell>) returns (ok: bool)
    requires stream.Valid() && m < |env|
    requires InRange(stream.Snap(), SubmessageEmission(env, m, cells))
    modifies stream, stream.buf
    ensures stream.Valid()
    ensures Took(old(stream.Snap()), stream.Snap(), SubmessageEmission(env, m, cells), ok)
    decreases m, 5, 1
  {
    hide EncodeMsg, VarintBytes, Took, InRange;
    ghost var a := stream.Snap();
    ghost var body := EncodeMsg(env, m, cells);
    var substream := new OStream.Sizing();
    SizingInRange(substream, body);
    ok := Encode(substream, env, m, cells);
    SizingTook(substream, body, ok);
    if !ok {
      TookFailure(a);
      return false;
    }
    var size := substream.bytesWritten;
    ghost var e1, e2 := Emission(true, VarintBytes(size)), Emission(true, body.bytes);
    DelimitedSplit(body.bytes);
    InRangeThen(a, a, e1, e2);
    ok := EncodeVarint(stream, size);
    ghost var b := stream.Snap();
    if !ok {
      TookFailed(a, b, e1, e2);
      return false;
    }
    InRangeThen(a, b, e1, e2);
    ok := EncBody(stream, env, m, cells, size);
    TookThen(a, b, stream.Snap(), e1, e2, ok);
  }

  /** A tag and a value. */
  method EncRecord(stream: OStream, env: StaticSchema, m: nat, f: Field, v: Value) returns (ok: bool)
    requires stream.Valid() && StaticOk(m, f) && m <= |env|
    requires InRange(stream.Snap(), EncodeRecord(env, m, f, v))
    modifies stream, stream.buf
    ensures stream.Valid()
    ensures Took(old(stream.Snap()), stream.Snap(), EncodeRecord(env, m, f, v), ok)
    decreases m, 1, 0
  {
    hide EncodeValue, EncodeTag, Took, InRange;
    ghost var a := stream.Snap();
    ghost var e1, e2 := EncodeTag(f), EncodeValue(env, m, f, v);
    InRangeThen(a, a, e1, e2);
    ok := EncTag(stream, f);
    ghost var b := stream.Snap();
    if !ok {
      TookFailed(a, b, e1, e2);
      return;
    }
    InRangeThen(a, b, e1, e2);
    ok := EncValue(stream, env, m, f, v);
    TookThen(a, b, stream.Snap(), e1, e2, ok);
  }

  // ----- arrays -----

  /** The entries of a packed array, one after another. */
  method EncPackedData(stream: OStream, m: nat, f: Field, items: seq<Value>) returns (ok: bool)
    requires stream.Valid() && StaticOk(m, f) && !f.ltype.LSubmessage?
    modifies stream, stream.buf
    ensures stream.Valid()
    ensures Took(old(stream.Snap()), stream.Snap(), EncodePackedFrom(f, items, 0), ok)
  {
    hide EncodeScalar, Took, Then;
    ghost var a := stream.Snap();
    ghost var done := NOTHING;
    assert Took(a, a, done, true) by { TookNothing(a); }
    ThenAssociative(EncodePackedFrom(f, items, 0), NOTHING, NOTHING);
    for i := 0 to |items|
      invariant stream.Valid()
      invariant Took(a, stream.Snap(), done, true)
      invariant Then(done, EncodePackedFrom(f, items, i)) == EncodePackedFrom(f, items, 0)
    {
      ghost var b := stream.Snap();
      ghost var e, rest := EncodeScalar(f, items[i]), EncodePackedFrom(f, items, i + 1);
      ok := EncScalar(stream, m, f, items[i]);
      PartTaken(a, b, stream.Snap(), done, e, rest, ok);
      if !ok {
        return;
      }
      done := Then(done, e);
    }
    ThenAssociative(done, NOTHING, NOTHING);
    return true;
  }

  /** The size of a packed array: fixed-width entries are multiplied out, others counted on a
      sizing stream. */
  method PackedSize(m: nat, f: Field, items: seq<Value>) returns (ok: bool, size: nat)
    requires StaticOk(m, f) && f.ltype.Packable() && 8 * |items| < U64
    ensures ok == EncodePackedFrom(f, items, 0).ok
    ensures ok ==> size == Word64(|EncodePackedFrom(f, items, 0).bytes|)
  {
    if f.ltype.LFixed32? {
      FixedPackedSize(f, items, 0);
      return true, 4 * |items|;
    } else if f.ltype.LFixed64? {
      FixedPackedSize(f, items, 0);
      return true, 8 * |items|;
    }
    var sizestream := new OStream.Sizing();
    ok := EncPackedData(sizestream, m, f, items);
    size := sizestream.bytesWritten;
  }

  lemma {:induction false} FixedPackedSize(f: Field, items: seq<Value>, k: nat)
    requires k <= |items| && (f.ltype.LFixed32? || f.ltype.LFixed64?)
    ensures EncodePackedFrom(f, items, k).ok
    ensures |EncodePackedFrom(f, items, k).bytes| == (if f.ltype.LFixed32? then 4 else 8) * (|items| - k)
    decreases |items| - k
  {
    if k < |items| {
      FixedPackedSize(f, items, k + 1);
    }
  }

  /** What follows the tag of a packed array. */
  function PackedPayload(f: Field, items: seq<Value>): Emission {
    var data := EncodePackedFrom(f, items, 0);
    if data.ok then Emission(true, Delimited(data.bytes)) else FAILURE
  }

  /** The packed branch of `encode_array` after the tag. */
  method EncPackedPayload(stream: OStream, m: nat, f: Field, items: seq<Value>) returns (ok: bool)
    requires stream.Valid() && StaticOk(m, f) && f.ltype.Packable() && |items| <= f.arraySize
    requires InRange(stream.Snap(), PackedPayload(f, items))
    modifies stream, stream.buf
    ensures stream.Valid()
    ensures Took(old(stream.Snap()), stream.Snap(), PackedPayload(f, items), ok)
  {
    hide EncodePackedFrom, VarintBytes;
    ghost var a := stream.Snap();
    ghost var data := EncodePackedFrom(f, items, 0);
    var size;
    ok, size := PackedSize(m, f, items);
    if !ok {
      return;
    }
    ghost var e1, e2 := Emission(true, VarintBytes(size)), Emission(true, data.bytes);
    DelimitedSplit(data.bytes);
    ok := EncodeVarint(stream, size);
    ghost var b := stream.Snap();
    if !ok {
      TookFailed(a, b, e1, e2);
      return;
    }
    if stream.sizing {
      stream.Count(size);
      Word64Add(b.bytesWritten, |data.bytes|);
      TookThen(a, b, stream.Snap(), e1, e2, true);
      return true;
    }
    ok := EncPackedData(stream, m, f, items);
    TookThen(a, b, stream.Snap(), e1, e2, ok);
  }

  /** The packed branch of `encode_array`. */
  method EncPacked(stream: OStream, m: nat, f: Field, items: seq<Value>) returns (ok: bool)
    requires stream.Valid() && StaticOk(m, f) && f.ltype.Packable() && |items| <= f.arraySize
    requires InRange(stream.Snap(), EncodePacked(f, items))
    modifies stream, stream.buf
    ensures stream.Valid()
    ensures Took(old(stream.Snap()), stream.Snap(), EncodePacked(f, items), ok)
  {
    hide PackedPayload, TagBytes, Took, InRange;
    ghost var a := stream.Snap();
    ghost var e1, e2 := Emission(true, TagBytes(WT_STRING, f.tag)), PackedPayload(f, items);
    assert EncodePacked(f, items) == Then(e1, e2) by { PackedShape(f, items); }
    InRangeThen(a, a, e1, e2);
    ok := EncodeTagValue(stream, WT_STRING, f.tag);
    ghost var b := stream.Snap();
    if !ok {
      TookFailed(a, b, e1, e2);
      return;
    }
    InRangeThen(a, b, e1, e2);
    ok := EncPackedPayload(stream, m, f, items);
    TookThen(a, b, stream.Snap(), e1, e2, ok);
  }

  lemma PackedShape(f: Field, items: seq<Value>)
    ensures EncodePacked(f, items) == Then(Emission(true, TagBytes(WT_STRING, f.tag)), PackedPayload(f, items))
  {
  }

  /** The unpacked branch of `encode_array`. */
  method EncUnpacked(stream: OStream, env: StaticSchema, m: nat, f: Field, items: seq<Value>) returns (ok: bool)
    requires stream.Valid() && StaticOk(m, f) && m <= |env|
    requires InRange(stream.Snap(), EncodeUnpackedFrom(env, m, f, items, 0))
    modifies stream, stream.buf
    ensures stream.Valid()
    ensures Took(old(stream.Snap()), stream.Snap(), EncodeUnpackedFrom(env, m, f, items, 0), ok)
    decreases m, 2, 0
  {
    hide EncodeRecord, Took, InRange, Then;
    ghost var a := stream.Snap();
    ghost var done := NOTHING;
    assert Took(a, a, done, true) by { TookNothing(a); }
    ThenAssociative(EncodeUnpackedFrom(env, m, f, items, 0), NOTHING, NOTHING);
    for i := 0 to |items|
      invariant stream.Valid()
      invariant Took(a, stream.Snap(), done, true)
      invariant Then(done, EncodeUnpackedFrom(env, m, f, items, i)) == EncodeUnpackedFrom(env, m, f, items, 0)
    {
      ghost var b := stream.Snap();
      ghost var e, rest := EncodeRecord(env, m, f, items[i]), EncodeUnpackedFrom(env, m, f, items, i + 1);
      PartInRange(a, b, done, e, rest);
      ok := EncRecord(stream, env, m, f, items[i]);
      PartTaken(a, b, stream.Snap(), done, e, rest, ok);
      if !ok {
        return;
      }
      done := Then(done, e);
    }
    ThenAssociative(done, NOTHING, NOTHING);
    return true;
  }

  /** `encode_array`. */
  method EncArray(stream: OStream, env: StaticSchema, m: nat, f: Field, items: seq<Value>) returns (ok: bool)
    requires stream.Valid() && StaticOk(m, f) && m <= |env|
    requires InRange(stream.Snap(), EncodeArray(env, m, f, items))
    modifies stream, stream.buf
    ensures stream.Valid()
    ensures Took(old(stream.Snap()), stream.Snap(), EncodeArray(env, m, f, items), ok)
    decreases m, 3, 0
  {
    if |items| == 0 {
      TookNothing(stream.Snap());
      return true;
    }
    if |items| > f.arraySize {
      return false;
    }
    if f.ltype.Packable() {
      ok := EncPacked(stream, m, f, items);
    } else {
      ok := EncUnpacked(stream, env, m, f, items);
    }
  }

  // ----- fields and messages -----

  /** The loop of `pb_check_proto3_default_value` over the bytes of a member. */
  method ZeroMember(f: Field, v: Value) returns (zero: bool)
    ensures zero == AllZero(MemberBytes(f, v))
  {
    var p := MemberBytes(f, v);
    for i := 0 to f.dataSize
      invariant forall k :: 0 <= k < i ==> p[k] == 0
    {
      if p[i] != 0 {
        return false;
      }
    }
    return true;
  }

  /** `pb_check_proto3_default_value`. */
  method CheckProto3Default(env: StaticSchema, m: nat, f: Field, cell: Cell) returns (b: bool)
    requires StaticOk(m, f) && m <= |env|
    ensures b == IsDefault(env, m, f, cell)
    decreases m, 0
  {
    if f.htype.Required? {
      return false;
    } else if f.htype.Repeated? {
      return f.sizeOffset != 0 && cell.Items() == [];
    } else if f.htype.Oneof? {
      return cell.Which() == 0;
    } else if f.sizeOffset != 0 {
      return !cell.Has();
    }
    if f.ltype.LBytes? {
      return cell.Content().AsBytes() == [];
    } else if f.ltype.LString? {
      return cell.Content().AsBytes() == [] || cell.Content().AsBytes()[0] == 0;
    } else if f.ltype.LFixedLengthBytes? {
      return f.dataSize == 0;
    } else if !f.ltype.LSubmessage? {
      b := ZeroMember(f, cell.Content());
      return;
    }
    b := CheckSubmessage(env, f.ptr.id, cell.Content().AsCells());
  }

  /** Its loop over the fields of a submessage. */
  method CheckSubmessage(env: StaticSchema, sub: nat, cells: seq<Cell>) returns (b: bool)
    requires sub < |env|
    ensures b == AllDefaultFrom(env, sub, cells, 0)
    decreases sub, 1
  {
    hide IsDefault;
    if env[sub] == [] {
      return true;
    }
    var iter := new FieldIter(env[sub], 0);
    while true
      invariant iter.Valid() && iter.start == env[sub] && fresh(iter)
      invariant AllDefaultFrom(env, sub, cells, 0) == AllDefaultFrom(env, sub, cells, iter.pos)
      decreases |env[sub]| - iter.pos
    {
      assert StaticOk(sub, env[sub][iter.pos]);
      var zero := CheckProto3Default(env, sub, env[sub][iter.pos], CellAt(cells, SlotOf(env[sub], iter.pos)));
      if !zero {
        return false;
      }
      var more := iter.Next();
      if !more {
        return true;
      }
    }
  }

  /** `encode_basic_field`. */
  method EncField(stream: OStream, env: StaticSchema, m: nat, f: Field, cell: Cell) returns (ok: bool)
    requires stream.Valid() && StaticOk(m, f) && m <= |env|
    requires InRange(stream.Snap(), EncodeField(env, m, f, cell))
    modifies stream, stream.buf
    ensures stream.Valid()
    ensures Took(old(stream.Snap()), stream.Snap(), EncodeField(env, m, f, cell), ok)
    decreases m, 4, 0
  {
    hide EncodeArray, EncodeRecord, IsDefault;
    var present := true;
    match f.htype {
      case Required =>
      case Optional =>
        if f.sizeOffset != 0 {
          present := cell.Has();
        } else {
          var zero := CheckProto3Default(env, m, f, cell);
          present := !zero;
        }
      case Repeated =>
        ok := EncArray(stream, env, m, f, cell.Items());
        return;
      case Oneof =>
        present := cell.Which() == f.tag;
    }
    if present {
      ok := EncRecord(stream, env, m, f, cell.Content());
    } else {
      TookNothing(stream.Snap());
      ok := true;
    }
  }

  /** `pb_encode`. */
  method Encode(stream: OStream, env: StaticSchema, m: nat, cells: seq<Cell>) returns (ok: bool)
    requires stream.Valid() && m < |env|
    requires InRange(stream.Snap(), EncodeMsg(env, m, cells))
    modifies stream, stream.buf
    ensures stream.Valid()
    ensures Took(old(stream.Snap()), stream.Snap(), EncodeMsg(env, m, cells), ok)
    decreases m, 4, 1
  {
    ghost var a := stream.Snap();
    ghost var done := NOTHING;
    TookNothing(a);
    var fields := env[m];
    var iter := new FieldIter(fields, 0);
    if fields == [] {
      return true;
    }
    hide EncodeField, Took, InRange, Then, SlotOf, CellAt;
    ThenAssociative(EncodeFrom(env, m, cells, 0), NOTHING, NOTHING);
    while true
      invariant stream.Valid() && fresh(iter) && iter.Valid() && iter.start == fields
      invariant Took(a, stream.Snap(), done, true)
      invariant Then(done, EncodeFrom(env, m, cells, iter.pos)) == EncodeFrom(env, m, cells, 0)
      decreases |fields| - iter.pos
    {
      ghost var b := stream.Snap();
      ghost var i := iter.pos;
      var f, cell := fields[iter.pos], CellAt(cells, SlotOf(fields, iter.pos));
      assert StaticOk(m, f);
      ghost var e, rest := EncodeField(env, m, f, cell), EncodeFrom(env, m, cells, i + 1);
      PartInRange(a, b, done, e, rest);
      ok := EncField(stream, env, m, f, cell);
      PartTaken(a, b, stream.Snap(), done, e, rest, ok);
      if !ok {
        return;
      }
      done := Then(done, e);
      var more := iter.Next();
      if !more {
        assert rest == NOTHING;
        ThenAssociative(done, NOTHING, NOTHING);
        return true;
      }
    }
  }

  /** `pb_get_encoded_size`. */
  method GetEncodedSize(env: StaticSchema, m: nat, cells: seq<Cell>) returns (ok: bool, size: nat)
    requires m < |env|
    ensures ok == EncodeMsg(env, m, cells).ok
    ensures ok ==> size == Word64(|EncodeMsg(env, m, cells).bytes|)
  {
    var stream := new OStream.Sizing();
    ok := Encode(stream, env, m, cells);
    size := stream.bytesWritten;
  }

  /** Sizing agrees with writing: the sizing pass announces the number of bytes the writing
      pass stores, and a buffer takes the message exactly when it has that many bytes. */
  method SizeThenEncode(env: StaticSchema, m: nat, cells: seq<Cell>, buffer: array<byte>)
      returns (sized: bool, size: nat, ok: bool, written: nat)
    requires m < |env| && buffer.Length < U64
    requires |EncodeMsg(env, m, cells).bytes| < U64
    modifies buffer
    ensures sized == EncodeMsg(env, m, cells).ok
    ensures ok <==> sized && size <= buffer.Length
    ensures ok ==> written == size && buffer[..size] == EncodeMsg(env, m, cells).bytes
    ensures ok ==> buffer[size..] == old(buffer[size..])
  {
    hide EncodeMsg;
    sized, size := GetEncodedSize(env, m, cells);
    var stream := new OStream.FromBuffer(buffer, buffer.Length);
    ok := Encode(stream, env, m, cells);
    written := stream.bytesWritten;
  }
}
