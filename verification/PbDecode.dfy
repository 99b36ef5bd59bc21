/**
  pb_decode.c: the decoder over an input stream and a destination struct, proved
  to do what PbDecodeSpec says.  Every loop terminates because bytes are consumed,
  and every substream has fewer bytes left than the stream it was cut from.
*/
module PbDecode {
  import opened Bits
  import opened Collections
  import opened PbWire
  import opened PbTypes
  import opened PbCommon
  import opened PbEncodeSpec
  import opened PbDecodeSpec
  import opened PbInput

  /** A destination struct. */
  class Message {
    var cells: seq<Cell>

    constructor (contents: seq<Cell>)
      ensures cells == contents
    {
      cells := contents;
    }
  }

  // ----- default initialisation -----

  /** `pb_field_set_to_default`, for the field whose cell is at `slot`. */
  method FieldSetToDefault(env: Schema, m: nat, f: Field, dest: Message, slot: nat)
    requires FieldOk(m, f) && m <= |env|
    requires slot < |dest.cells|
    modifies dest
    ensures dest.cells == old(dest.cells)[slot := DefaultCell(env, m, f)]
    decreases m, 0
  {
    var cell := Unset;
    var initData := true;
    if f.atype.Pointer? {
      // the pointer is NULL, and the count of an array or the tag of a union is 0
      cell := if f.htype.Repeated? then Arr([]) else if f.htype.Oneof? then Unset else Opt(false, VMsg([]));
      initData := false;
    } else if f.htype.Repeated? {
      cell := Arr([]);
      initData := false;
    } else if f.htype.Oneof? {
      initData := false;
    }
    if initData {
      var v := VInt(0);
      if f.ltype.LSubmessage? {
        var sub := new Message(seq(NumSlots(env[f.ptr.id]), _ => Unset));
        MessageSetToDefaults(env, f.ptr.id, sub);
        v := VMsg(sub.cells);
      } else if f.ptr.DefaultPtr? {
        v := f.ptr.value;
      } else {
        v := ZeroValue(f);
      }
      cell := if f.htype.Optional? && f.sizeOffset != 0 then Opt(false, v) else Plain(v);
    }
    dest.cells := dest.cells[slot := cell];
  }

  /** `pb_message_set_to_defaults`. */
  method MessageSetToDefaults(env: Schema, m: nat, dest: Message)
    requires m < |env| && |dest.cells| == NumSlots(env[m])
    modifies dest
    ensures dest.cells == Defaults(env, m)
    decreases m, 1
  {
    hide DefaultCell, RequiredBefore, OffsetOf, SizeDelta, SlotOf;
    var fields := env[m];
    var iter := new FieldIter(fields, 0);
    if fields == [] {
      return;
    }
    while true
      invariant fresh(iter) && iter.Valid() && iter.start == fields
      invariant |dest.cells| == NumSlots(fields)
      invariant DefaultsUpTo(env, m, iter.pos) <= dest.cells
      decreases |fields| - iter.pos
    {
      var i := iter.pos;
      TableField(env, m, i);
      SlotBound(fields, i);
      OneMoreDefault(env, m, i, dest.cells);
      FieldSetToDefault(env, m, fields[i], dest, SlotOf(fields, i));
      var more := iter.Next();
      if !more {
        return;
      }
    }
  }

  /** Initialising field `i` keeps the cells before it and sets its own. */
  lemma OneMoreDefault(env: Schema, m: nat, i: nat, cells: seq<Cell>)
    requires m < |env| && i < |env[m]| && FieldOk(m, env[m][i])
    requires |cells| == NumSlots(env[m]) && SlotOf(env[m], i) < |cells|
    requires DefaultsUpTo(env, m, i) <= cells
    ensures DefaultsUpTo(env, m, i + 1) <= cells[SlotOf(env[m], i) := DefaultCell(env, m, env[m][i])]
  {
    DefaultsOwnCell(env, m, i);
    hide DefaultsUpTo, DefaultCell, SlotOf;
  }

  lemma DefaultsOwnCell(env: Schema, m: nat, i: nat)
    requires m < |env| && i < |env[m]|
    ensures FieldOk(m, env[m][i])
    ensures DefaultsUpTo(env, m, i) <= DefaultsUpTo(env, m, i + 1)
    ensures |DefaultsUpTo(env, m, i + 1)| == SlotOf(env[m], i) + 1
    ensures |DefaultsUpTo(env, m, i)| >= SlotOf(env[m], i)
    ensures DefaultsUpTo(env, m, i + 1)[SlotOf(env[m], i)] == DefaultCell(env, m, env[m][i])
  {
    TableField(env, m, i);
    DefaultsOwn(env, m, i);
    DefaultsPrefix(env, m, i, i + 1);
  }

  // ----- single values -----

  /** `pb_dec_varint`, `pb_dec_uvarint` and `pb_dec_svarint`. */
  method DecInt(stream: IStream, f: Field) returns (ok: bool, v: Value)
    requires stream.Valid() && (f.ltype.LVarint? || f.ltype.LUvarint? || f.ltype.LSvarint?)
    modifies stream
    ensures stream.Valid() && stream.End() == old(stream.End())
    ensures ok == DecodeScalar(f, old(stream.Remaining())).Got?
    ensures ok ==> DecodeScalar(f, old(stream.Remaining())) == Got(v, stream.Remaining())
  {
    hide ReadVarint;
    v := VInt(0);
    if f.ltype.LSvarint? {
      var svalue;
      ok, svalue := DecodeSvarint(stream);
      if ok {
        ok := IntSize(f.dataSize) && SignedCast(svalue, f.dataSize) == svalue;
        v := VInt(svalue);
      }
      return;
    }
    var value;
    ok, value := DecodeVarint(stream);
    if !ok {
      return;
    }
    if f.ltype.LVarint? {
      var svalue := if f.dataSize == 8 then SignedCast(value, 8) else SignedCast(value, 4);
      ok := IntSize(f.dataSize) && SignedCast(svalue, f.dataSize) == svalue;
      v := VInt(svalue);
    } else {
      ok := IntSize(f.dataSize) && UnsignedCast(value, f.dataSize) == value;
      v := VInt(value);
    }
  }

  /** `pb_dec_bytes`, `pb_dec_string` and `pb_dec_fixed_length_bytes`. */
  method DecBytes(stream: IStream, f: Field) returns (ok: bool, v: Value)
    requires stream.Valid() && (f.ltype.LBytes? || f.ltype.LString? || f.ltype.LFixedLengthBytes?)
    modifies stream
    ensures stream.Valid() && stream.End() == old(stream.End())
    ensures ok == DecodeScalar(f, old(stream.Remaining())).Got?
    ensures ok ==> DecodeScalar(f, old(stream.Remaining())) == Got(v, stream.Remaining())
  {
    hide ReadVarint32;
    v := VBytes([]);
    var size, eof;
    ok, size, eof := DecodeVarint32(stream);
    if !ok {
      return;
    }
    if f.ltype.LBytes? {
      if size + BYTES_OFFSET > f.dataSize {
        return false, v;
      }
    } else if f.ltype.LString? {
      var allocSize := Word32(size + 1);
      if allocSize < size || allocSize > f.dataSize {
        return false, v;
      }
    } else {
      if size == 0 {
        return true, VBytes(seq(f.dataSize, _ => 0));
      }
      if size != f.dataSize {
        return false, v;
      }
    }
    var dest := new byte[size];
    ok := stream.ReadInto(dest, size);
    assert dest[..] == dest[..size];
    v := VBytes(dest[..]);
  }

  /** The functions of `PB_DECODERS`, except `pb_dec_submessage`. */
  method DecScalar(stream: IStream, f: Field) returns (ok: bool, v: Value)
    requires stream.Valid() && !f.ltype.LSubmessage?
    modifies stream
    ensures stream.Valid() && stream.End() == old(stream.End())
    ensures ok == DecodeScalar(f, old(stream.Remaining())).Got?
    ensures ok ==> DecodeScalar(f, old(stream.Remaining())) == Got(v, stream.Remaining())
  {
    match f.ltype
    case LBool =>
      var value, eof;
      ok, value, eof := DecodeVarint32(stream);
      v := VBool(value != 0);
    case LVarint => ok, v := DecInt(stream, f);
    case LUvarint => ok, v := DecInt(stream, f);
    case LSvarint => ok, v := DecInt(stream, f);
    case LFixed32 =>
      var value;
      ok, value := ReadFixed(stream, 4);
      v := VInt(value);
    case LFixed64 =>
      var value;
      ok, value := ReadFixed(stream, 8);
      v := VInt(value);
    case LBytes => ok, v := DecBytes(stream, f);
    case LString => ok, v := DecBytes(stream, f);
    case LFixedLengthBytes => ok, v := DecBytes(stream, f);
  }

  /** `pb_dec_submessage`: entries of arrays are initialised first, other submessages are
      decoded into what is there. */
  method DecSubmessage(stream: IStream, env: Schema, m: nat, f: Field, content: Value) returns (ok: bool, v: Value)
    requires stream.Valid() && FieldIn(env, m, f) && f.ltype.LSubmessage?
    modifies stream
    ensures stream.Valid() && stream.End() <= old(stream.End())
    ensures var init := if f.htype.Repeated? then VMsg(Defaults(env, f.ptr.id)) else content;
      var r := DecodeValue(env, m, f, init, old(stream.Remaining()));
      && ok == r.Got?
      && (ok ==> r == Got(v, stream.Remaining()) && stream.End() == old(stream.End()))
    decreases stream.bytesLeft, 0
  {
    hide DecodeMsg, ReadSubstream, Defaults, SlotOf;
    v := content;
    var substream;
    ok, substream := MakeSubstream(stream);
    if !ok {
      return;
    }
    ghost var rest := stream.buf[substream.End()..substream.End() + stream.bytesLeft];
    var sub := new Message(content.AsCells());
    if f.htype.Repeated? {
      sub.cells := seq(NumSlots(env[f.ptr.id]), _ => Unset);
      ok := Decode(substream, env, f.ptr.id, sub);
    } else {
      ok := DecodeNoinit(substream, env, f.ptr.id, sub);
    }
    v := VMsg(sub.cells);
    var closed := CloseSubstream(stream, substream);
    assert ok ==> stream.Remaining() == rest;
  }

  /** The functions of `PB_DECODERS`. */
  method DecValue(stream: IStream, env: Schema, m: nat, f: Field, content: Value) returns (ok: bool, v: Value)
    requires stream.Valid() && FieldIn(env, m, f)
    modifies stream
    ensures stream.Valid() && stream.End() <= old(stream.End())
    ensures var init := if f.htype.Repeated? && f.ltype.LSubmessage? then VMsg(Defaults(env, f.ptr.id)) else content;
      var r := DecodeValue(env, m, f, init, old(stream.Remaining()));
      && ok == r.Got?
      && (ok ==> r == Got(v, stream.Remaining()) && stream.End() == old(stream.End()))
    decreases stream.bytesLeft, 1
  {
    if f.ltype.LSubmessage? {
      ok, v := DecSubmessage(stream, env, m, f, content);
    } else {
      ok, v := DecScalar(stream, f);
    }
  }

  // ----- fields -----

  /** The packed branch of `decode_static_field`. */
  method DecPackedField(stream: IStream, f: Field, dest: Message, slot: nat, count: nat)
      returns (ok: bool, size: nat)
    requires stream.Valid() && !f.ltype.LSubmessage?
    modifies stream, dest
    ensures stream.Valid() && stream.End() <= old(stream.End())
    ensures var r := ReadSubstream(old(stream.Remaining()));
      var items := CellAt(old(dest.cells), slot).Items();
      && (ok <==> r.Got? && DecodePacked(f, items, count, r.v).PackedOk?)
      && (ok ==>
            && DecodePacked(f, items, count, r.v).count == size
            && dest.cells == SetCell(old(dest.cells), slot, Arr(DecodePacked(f, items, count, r.v).items))
            && stream.Remaining() == r.rest
            && stream.End() == old(stream.End()))
  {
    hide ReadSubstream, DecodeScalar;
    size := count;
    var substream;
    ok, substream := MakeSubstream(stream);
    if !ok {
      return;
    }
    ghost var rest := stream.buf[substream.End()..substream.End() + stream.bytesLeft];
    ghost var body := substream.Remaining();
    var items := CellAt(dest.cells, slot).Items();
    var status := true;
    while substream.bytesLeft > 0 && size < f.arraySize
      invariant substream.Valid() && fresh(substream) && substream.buf == stream.buf
      invariant substream.End() + stream.bytesLeft == old(stream.End())
      invariant stream.buf[substream.End()..substream.End() + stream.bytesLeft] == rest
      invariant stream.Valid() && stream.bytesLeft == |rest| && stream.state <= substream.state
      invariant dest.cells == old(dest.cells)
      invariant DecodePacked(f, CellAt(old(dest.cells), slot).Items(), count, body) ==
                DecodePacked(f, items, size, substream.Remaining())
      decreases substream.bytesLeft
    {
      ghost var before := substream.Remaining();
      var v;
      status, v := DecScalar(substream, f);
      if !status {
        break;
      }
      assert substream.bytesLeft < |before| by { ScalarConsumes(f, before); }
      items := PutItem(items, size, v);
      size := size + 1;
    }
    if status && substream.bytesLeft == 0 {
      assert substream.Remaining() == [];
    }
    if substream.bytesLeft != 0 {
      return false, size;
    }
    dest.cells := SetCell(dest.cells, slot, Arr(items));
    var closed := CloseSubstream(stream, substream);
    return status, size;
  }

  lemma ScalarConsumes(f: Field, s: seq<byte>)
    ensures DecodeScalar(f, s).Got? ==> |DecodeScalar(f, s).rest| < |s|
  {
  }

  /** The checks of `allocate_field`: no empty block, and no size above that of a `size_t`.  The
      allocation itself succeeds. */
  method CanAllocate(dataSize: nat, arraySize: nat) returns (ok: bool)
    ensures ok <==> dataSize > 0 && arraySize > 0 && dataSize * arraySize < U64
  {
    if dataSize == 0 || arraySize == 0 {
      return false;
    }
    var checkLimit := 0x1_0000_0000;
    if dataSize >= checkLimit || arraySize >= checkLimit {
      ProductFits(dataSize, arraySize, 0xFFFF_FFFF_FFFF_FFFF);
      return 0xFFFF_FFFF_FFFF_FFFF / arraySize >= dataSize;
    }
    SmallProduct(dataSize, arraySize);
    return true;
  }

  lemma ProductFits(a: nat, b: nat, max: nat)
    requires b > 0
    ensures max / b >= a <==> a * b <= max
  {
    var q := max / b;
    assert max == q * b + max % b;
    if q >= a {
      MulAtMost(a, q, b);
    } else {
      MulAtMost(q + 1, a, b);
    }
  }

  lemma SmallProduct(a: nat, b: nat)
    requires a <= PB_SIZE_MAX && b <= PB_SIZE_MAX
    ensures a * b < U64
  {
    MulAtMost(a, PB_SIZE_MAX, b);
  }

  /** What a single pointer points to before its value is decoded: a new default message. */
  method NewContent(env: Schema, m: nat, f: Field) returns (ok: bool, content: Value)
    requires FieldIn(env, m, f) && f.atype.Pointer?
    ensures ok <==> f.dataSize > 0
    ensures content == VMsg(Defaults(env, f.ptr.id))
  {
    SmallProduct(f.dataSize, 1);
    ok := CanAllocate(f.dataSize, 1);
    var sub := new Message(seq(NumSlots(env[f.ptr.id]), _ => Unset));
    MessageSetToDefaults(env, f.ptr.id, sub);
    content := VMsg(sub.cells);
  }

  /** What the value of a field that is not repeated is decoded into: what is there, or the defaults
      for a new union member and behind a pointer. */
  method OpenContent(env: Schema, m: nat, f: Field, cell: Cell) returns (ok: bool, content: Value)
    requires FieldIn(env, m, f) && !f.htype.Repeated?
    ensures ok <==> (f.atype.Pointer? ==> f.dataSize > 0)
    ensures f.ltype.LSubmessage? ==> content == OldContent(env, m, f, cell)
  {
    if f.atype.Pointer? {
      ok, content := NewContent(env, m, f);
      return;
    }
    ok, content := true, cell.Content();
    if f.htype.Oneof? && f.ltype.LSubmessage? && cell.Which() != f.tag {
      var sub := new Message(seq(NumSlots(env[f.ptr.id]), _ => Unset));
      MessageSetToDefaults(env, f.ptr.id, sub);
      content := VMsg(sub.cells);
    }
  }

  /** The repeated fields of `decode_field`.  `size` is the decoder's counter for fixed-count
      arrays, which stands in for the _count member they do not have. */
  method DecRepeated(stream: IStream, env: Schema, m: nat, i: nat, wireType: nat, dest: Message, size: nat,
                     ghost st: State) returns (ok: bool, newSize: nat)
    requires stream.Valid() && m < |env| && i < |env[m]| && env[m][i].htype.Repeated?
    requires st.cells == dest.cells && st.fixedSize == size
    modifies stream, dest
    ensures stream.Valid() && stream.End() <= old(stream.End())
    ensures var r := DecodeField(env, m, i, wireType, st, old(stream.Remaining()));
      && ok == r.Got?
      && (ok ==> r == Got(st.(cells := dest.cells, fixedSize := newSize), stream.Remaining()))
      && (ok ==> stream.End() == old(stream.End()))
    decreases stream.bytesLeft, 2, 1
  {
    hide DecodeValue, DecodePacked, ReadSubstream;
    var f := env[m][i];
    TableField(env, m, i);
    var slot := SlotOf(env[m], i);
    var items := CellAt(dest.cells, slot).Items();
    var count := if f.FixedCount() then size else |items|;
    var count';
    if wireType == WT_STRING && f.ltype.Packable() {
      ok, count' := DecPackedField(stream, f, dest, slot, count);
    } else {
      ok, count' := DecArrayEntry(stream, env, m, f, dest, slot, count);
    }
    newSize := if f.FixedCount() then count' else size;
  }

  /** `decode_field`. */
  method DecField(stream: IStream, env: Schema, m: nat, i: nat, wireType: nat, dest: Message, size: nat,
                  ghost st: State) returns (ok: bool, newSize: nat)
    requires stream.Valid() && m < |env| && i < |env[m]|
    requires st.cells == dest.cells && st.fixedSize == size
    modifies stream, dest
    ensures stream.Valid() && stream.End() <= old(stream.End())
    ensures var r := DecodeField(env, m, i, wireType, st, old(stream.Remaining()));
      && ok == r.Got?
      && (ok ==> r == Got(st.(cells := dest.cells, fixedSize := newSize), stream.Remaining()))
      && (ok ==> stream.End() == old(stream.End()))
    decreases stream.bytesLeft, 2, 2
  {
    var f := env[m][i];
    if f.htype.Repeated? {
      hide DecodeField;
      ok, newSize := DecRepeated(stream, env, m, i, wireType, dest, size, st);
      return;
    }
    hide DecodeValue, DecodePacked, ReadSubstream, SlotOf, Defaults;
    TableField(env, m, i);
    var slot := SlotOf(env[m], i);
    var cell := CellAt(dest.cells, slot);
    newSize := size;
    if f.htype.Oneof? && cell.Which() != 0 && cell.Which() != f.tag && FindTag(env[m], cell.Which()).None? {
      return false, size;
    }
    var content, v;
    ok, content := OpenContent(env, m, f, cell);
    if !ok {
      return;
    }
    ScalarIgnoresContent(env, m, f, content, OldContent(env, m, f, cell), stream.Remaining());
    ok, v := DecValue(stream, env, m, f, content);
    dest.cells := SetCell(dest.cells, slot, StoreValue(f, v));
  }

  lemma ScalarIgnoresContent(env: Schema, m: nat, f: Field, a: Value, b: Value, s: seq<byte>)
    requires FieldIn(env, m, f)
    requires f.ltype.LSubmessage? ==> a == b
    ensures DecodeValue(env, m, f, a, s) == DecodeValue(env, m, f, b, s)
  {
  }

  /** The unpacked branches of `decode_static_field` and `decode_pointer_field`: one entry, which
      is counted first; a pointer's array is enlarged for it. */
  method DecArrayEntry(stream: IStream, env: Schema, m: nat, f: Field, dest: Message, slot: nat, count: nat)
      returns (ok: bool, size: nat)
    requires stream.Valid() && FieldIn(env, m, f) && f.htype.Repeated?
    modifies stream, dest
    ensures stream.Valid() && stream.End() <= old(stream.End())
    ensures var r := DecodeValue(env, m, f, OldContent(env, m, f, Unset), old(stream.Remaining()));
      && (ok <==> count < Capacity(f) && (f.atype.Pointer? ==> f.dataSize > 0) && r.Got?)
      && (ok ==>
            && size == count + 1
            && dest.cells == SetCell(old(dest.cells), slot, Arr(PutItem(CellAt(old(dest.cells), slot).Items(), count, r.v)))
            && stream.Remaining() == r.rest
            && stream.End() == old(stream.End()))
    decreases stream.bytesLeft, 2, 0
  {
    hide DecodeValue;
    size := count + 1;
    if f.atype.Pointer? {
      if count >= PB_SIZE_MAX {
        return false, count;
      }
      SmallProduct(f.dataSize, size);
      ok := CanAllocate(f.dataSize, size);
      if !ok {
        return;
      }
    } else if count >= f.arraySize {
      return false, size;
    }
    var items := CellAt(dest.cells, slot).Items();
    var v;
    ScalarIgnoresContent(env, m, f, if f.ltype.LSubmessage? then VMsg(Defaults(env, f.ptr.id)) else VInt(0),
                         OldContent(env, m, f, Unset), stream.Remaining());
    ok, v := DecValue(stream, env, m, f, VInt(0));
    dest.cells := SetCell(dest.cells, slot, Arr(PutItem(items, count, v)));
  }

  // ----- the two words of fields_seen -----

  /** Bit `k` of the words is set exactly for the required fields `k` that were seen. */
  ghost predicate WordsMatch(words: seq<nat>, seen: set<nat>) {
    && |words| == 2 && WordMatches(words[0], seen, 0) && WordMatches(words[1], seen, 32)
    && (forall k: nat | k in seen :: k < PB_MAX_REQUIRED_FIELDS)
  }

  /** The bits of `w` are the marks from `first` on. */
  ghost predicate WordMatches(w: nat, seen: set<nat>, first: nat) {
    w < Pow2(32) && forall k: nat | k < 32 :: k + first in seen <==> TestBit(w, k)
  }

  lemma WordsStart()
    ensures WordsMatch([0, 0], {})
  {
    forall k: nat | k < 32 ensures !TestBit(0, k) {
      ZeroHasNoBits(k);
    }
  }

  lemma WordsMark(words: seq<nat>, seen: set<nat>, k: nat)
    requires WordsMatch(words, seen) && k < PB_MAX_REQUIRED_FIELDS
    ensures WordsMatch(words[k / 32 := BitOr(words[k / 32], Pow2(k % 32))], seen + {k})
  {
    hide WordMatches;
    var w := BitOr(words[k / 32], Pow2(k % 32));
    if k < 32 {
      WordMarked(words[0], seen, 0, k);
      OtherWord(words[1], seen, 32, k);
    } else {
      WordMarked(words[1], seen, 32, k - 32);
      OtherWord(words[0], seen, 0, k);
    }
  }

  lemma WordMarked(w: nat, seen: set<nat>, first: nat, i: nat)
    requires WordMatches(w, seen, first) && i < 32
    ensures WordMatches(BitOr(w, Pow2(i)), seen + {i + first}, first)
  {
    WordMark(w, i);
    hide TestBit, BitOr, Pow2;
  }

  lemma OtherWord(w: nat, seen: set<nat>, first: nat, k: nat)
    requires WordMatches(w, seen, first) && (k < first || first + 32 <= k)
    ensures WordMatches(w, seen + {k}, first)
  {
    hide TestBit, Pow2;
  }

  lemma WordMark(w: nat, i: nat)
    requires w < Pow2(32) && i < 32
    ensures BitOr(w, Pow2(i)) < Pow2(32)
    ensures forall j: nat | j < 32 :: TestBit(BitOr(w, Pow2(i)), j) <==> TestBit(w, j) || j == i
  {
    assert Pow2(i) < Pow2(32) by {
      Pow2Monotone(i, 31);
      Pow2Values();
    }
    BitOrBelow(w, Pow2(i), 32);
    hide TestBit, BitOr, Pow2;
    forall j: nat | j < 32 ensures TestBit(BitOr(w, Pow2(i)), j) <==> TestBit(w, j) || j == i {
      TestBitOr(w, Pow2(i), j);
      TestBitPow2(i, j);
    }
  }

  /** The comparison of one word with its `n` low bits all set. */
  lemma WordComplete(w: nat, n: nat)
    requires n <= 32 && w < Pow2(32)
    requires forall k: nat | k < 32 && TestBit(w, k) :: k < n
    ensures w == Pow2(n) - 1 <==> LowBitsSet(w, n)
  {
    HighBitsClear(w, n, 32);
    AllOnes(w, n);
  }

  lemma {:induction false} HighBitsClear(w: nat, n: nat, width: nat)
    requires n <= width && w < Pow2(width)
    requires forall k: nat | k < width && TestBit(w, k) :: k < n
    ensures w < Pow2(n)
  {
    if n == 0 {
      AllClear(w, width);
    } else {
      forall k: nat | k < width - 1 && TestBit(w / 2, k) ensures k < n - 1 {
        assert TestBit(w, k + 1);
      }
      HighBitsClear(w / 2, n - 1, width - 1);
    }
  }

  lemma {:induction false} AllClear(w: nat, width: nat)
    requires w < Pow2(width)
    requires forall k: nat | k < width :: !TestBit(w, k)
    ensures w == 0
  {
    if width > 0 {
      assert !TestBit(w, 0);
      forall k: nat | k < width - 1 ensures !TestBit(w / 2, k) {
        assert !TestBit(w, k + 1);
      }
      AllClear(w / 2, width - 1);
    }
  }

  /** `allbits >> (32 - n)`. */
  lemma AllBitsShifted(n: nat)
    requires 0 < n <= 32
    ensures 0xFFFF_FFFF / Pow2(32 - n) == Pow2(n) - 1
  {
    var a := Pow2(32 - n);
    assert Pow2(n) * a == 0x1_0000_0000 by {
      Pow2Add(n, 32 - n);
      Pow2Values();
    }
    assert (Pow2(n) - 1) * a == Pow2(n) * a - a;
    ModUnique(0xFFFF_FFFF, a, Pow2(n) - 1, a - 1);
  }

  /** The final check of `pb_decode_noinit` on the words. */
  method CheckRequired(words: seq<nat>, reqFieldCount: nat, ghost seen: set<nat>) returns (ok: bool)
    requires WordsMatch(words, seen)
    requires forall k: nat | k in seen :: k < reqFieldCount
    ensures ok <==> forall k: nat | k < reqFieldCount && k < PB_MAX_REQUIRED_FIELDS :: k in seen
  {
    hide TestBit, Pow2;
    var n := if reqFieldCount > PB_MAX_REQUIRED_FIELDS then PB_MAX_REQUIRED_FIELDS else reqFieldCount;
    if n == 0 {
      return true;
    }
    assert Pow2(32) == 0x1_0000_0000 by { Pow2Values(); }
    var i := 0;
    while i < n / 32
      invariant 0 <= i <= n / 32
      invariant forall k: nat | k < 32 * i :: k in seen
    {
      WordComplete(words[i], 32);
      if words[i] != 0xFFFF_FFFF {
        MissingBit(words, seen, i);
        return false;
      }
      WholeWord(words, seen, i);
      i := i + 1;
    }
    if n % 32 != 0 {
      assert Pow2(32 - n % 32) > 0;
      AllBitsShifted(n % 32);
      LastWord(words, seen, n);
      if words[n / 32] != 0xFFFF_FFFF / Pow2(32 - n % 32) {
        return false;
      }
    }
    return true;
  }

  lemma WholeWord(words: seq<nat>, seen: set<nat>, i: nat)
    requires WordsMatch(words, seen) && i < 2 && LowBitsSet(words[i], 32)
    ensures forall k: nat | 32 * i <= k < 32 * i + 32 :: k in seen
  {
    forall k: nat | 32 * i <= k < 32 * i + 32 ensures k in seen {
      var j: nat := k - 32 * i;
      BitIsMember(words, seen, i, j);
      assert TestBit(words[i], j);
    }
  }

  lemma MissingBit(words: seq<nat>, seen: set<nat>, i: nat)
    requires WordsMatch(words, seen) && i < 2 && !LowBitsSet(words[i], 32)
    ensures exists k: nat :: 32 * i <= k < 32 * i + 32 && k !in seen
  {
    var j: nat :| j < 32 && !TestBit(words[i], j);
    BitIsMember(words, seen, i, j);
    assert 32 * i + j !in seen;
  }

  lemma BitIsMember(words: seq<nat>, seen: set<nat>, i: nat, j: nat)
    requires WordsMatch(words, seen) && i < 2 && j < 32
    ensures TestBit(words[i], j) <==> 32 * i + j in seen
  {
    hide TestBit, Pow2;
    if i == 1 {
      assert TestBit(words[1], j) <==> j + 32 in seen;
    }
  }

  lemma LastWord(words: seq<nat>, seen: set<nat>, n: nat)
    requires WordsMatch(words, seen) && n < 64
    requires forall k: nat | k in seen :: k < n
    ensures words[n / 32] == Pow2(n % 32) - 1 <==> forall k: nat | 32 * (n / 32) <= k < n :: k in seen
  {
    hide Pow2, TestBit;
    var i, r := n / 32, n % 32;
    var w := words[i];
    forall k: nat | k < 32 ensures TestBit(w, k) <==> 32 * i + k in seen {
      BitIsMember(words, seen, i, k);
    }
    WordComplete(w, r);
    if LowBitsSet(w, r) {
      forall k: nat | 32 * i <= k < n ensures k in seen {
        var j: nat := k - 32 * i;
        assert TestBit(w, j);
      }
    }
    if forall k: nat | 32 * i <= k < n :: k in seen {
      forall k: nat | k < r ensures TestBit(w, k) {
        assert 32 * i + k in seen;
      }
    }
  }

  // ----- messages -----

  /** The number of required fields, found by seeking to the end of the descriptor. */
  method CountRequired(iter: FieldIter) returns (count: nat)
    requires iter.Valid()
    requires forall i :: 0 <= i < |iter.start| ==> iter.start[i].tag != 0
    modifies iter
    ensures count == NumRequired(iter.start)
  {
    var lastType := Required;
    count := iter.requiredFieldIndex;
    while true
      invariant iter.Valid()
      decreases |iter.start| - iter.pos
    {
      count := iter.requiredFieldIndex;
      lastType := if iter.pos < |iter.start| then iter.start[iter.pos].htype else Required;
      ghost var i := iter.pos;
      var more := iter.Next();
      if !more {
        if lastType.Required? && iter.Tag() != 0 {
          count := count + 1;
        }
        assert iter.start != [] ==> RequiredBefore(iter.start, i + 1) == count;
        return;
      }
    }
  }

  /** What the locals of `pb_decode_noinit` say about the state of the specification. */
  ghost predicate Represents(fields: seq<Field>, st: State, cells: seq<Cell>, fixedCountField: Option<nat>,
                             fixedCountSize: nat, fieldsSeen: seq<nat>) {
    && st.cells == cells && st.fixedField == fixedCountField && st.fixedSize == fixedCountSize
    && WordsMatch(fieldsSeen, st.seen)
    && (forall k: nat | k in st.seen :: k < NumRequired(fields))
    && (fixedCountField.Some? ==> fixedCountField.value < |fields|)
  }

  /** `pb_decode_noinit`. */
  method DecodeNoinit(stream: IStream, env: Schema, m: nat, dest: Message) returns (ok: bool)
    requires stream.Valid() && m < |env|
    modifies stream, dest
    ensures stream.Valid() && stream.End() <= old(stream.End())
    ensures var r := DecodeMsg(env, m, old(dest.cells), old(stream.Remaining()));
      && ok == r.Got?
      && (ok ==> r == Got(dest.cells, stream.Remaining()) && stream.End() == old(stream.End()))
    decreases stream.bytesLeft, 5
  {
    hide Run, WordsMatch;
    var fields := env[m];
    assert DescriptorOk(m, fields);
    var iter := new FieldIter(fields, 0);
    ghost var st;
    var seen, fixedField, fixedSize;
    ok, st, seen, fixedField, fixedSize := DecodeRecords(stream, env, m, dest, iter);
    if !ok {
      return;
    }
    if fixedField.Some? && fixedSize != fields[fixedField.value].arraySize {
      return false;
    }
    var reqFieldCount := CountRequired(iter);
    ok := CheckRequired(seen, reqFieldCount, st.seen);
  }

  /** The loop of `pb_decode_noinit`. */
  method DecodeRecords(stream: IStream, env: Schema, m: nat, dest: Message, iter: FieldIter)
      returns (ok: bool, ghost st: State, seen: seq<nat>, fixedField: Option<nat>, fixedSize: nat)
    requires stream.Valid() && m < |env|
    requires iter.Valid() && iter.start == env[m] && iter.pSize != LocalCounter
    modifies stream, dest, iter
    ensures stream.Valid() && stream.End() <= old(stream.End())
    ensures var r := Run(env, m, Start(old(dest.cells)), old(stream.Remaining()));
      && ok == !r.Failed?
      && (ok ==> r == (if r.Ended? then Ended(st) else Stopped(st, stream.Remaining())))
      && (r.Ended? ==> stream.Remaining() == [])
      && (ok ==> stream.End() == old(stream.End()))
    ensures ok ==> iter.Valid()
    ensures ok ==> Represents(env[m], st, dest.cells, fixedField, fixedSize, seen)
    decreases stream.bytesLeft, 4
  {
    hide DecodeRecord, WordsMatch, ReadVarint32, DecodeMsg;
    st, seen, fixedField, fixedSize := Start(dest.cells), [0, 0], None, 0;
    ghost var s := stream.Remaining();
    WordsStart();
    while stream.bytesLeft > 0
      invariant stream.Valid() && stream.End() == old(stream.End())
      invariant stream.bytesLeft <= old(stream.bytesLeft)
      invariant iter.Valid()
      invariant iter.pSize == LocalCounter ==> fixedField == Some(iter.pos)
      invariant Represents(env[m], st, dest.cells, fixedField, fixedSize, seen)
      invariant Run(env, m, Start(old(dest.cells)), s) == Run(env, m, st, stream.Remaining())
      decreases stream.bytesLeft
    {
      var wireType, tag, eof;
      ghost var before := stream.Remaining();
      ok, wireType, tag, eof := DecodeTag(stream);
      assert before != [];
      if !ok {
        if eof {
          return true, st, seen, fixedField, fixedSize;
        }
        return;
      }
      assert ReadKey(before) == Got(tag * 8 + wireType, stream.Remaining());
      assert stream.bytesLeft < |before| by { KeyConsumes(before); }
      ok, st, seen, fixedField, fixedSize :=
        DecRecord(stream, env, m, tag, wireType, dest, iter, st, seen, fixedField, fixedSize);
      if !ok {
        return;
      }
    }
    ok := true;
  }

  lemma KeyConsumes(s: seq<byte>)
    ensures ReadKey(s).Got? ==> |ReadKey(s).rest| < |s|
  {
  }

  /** The bookkeeping of fixed-count arrays before a record of the field at the iterator:
      the decoder's counter takes the place of the missing _count member. */
  method EnterFixedCount(fields: seq<Field>, iter: FieldIter, fixedField: Option<nat>, fixedSize: nat, ghost st: State)
      returns (ok: bool, fixedField': Option<nat>, fixedSize': nat)
    requires iter.Valid() && iter.start == fields && fields != []
    requires fixedField.Some? ==> fixedField.value < |fields|
    requires iter.pSize == LocalCounter ==> fixedField == Some(iter.pos)
    requires st.fixedField == fixedField && st.fixedSize == fixedSize
    modifies iter`pSize
    ensures iter.Valid()
    ensures ok == EnterFixed(fields, st, iter.pos).Some?
    ensures ok ==> EnterFixed(fields, st, iter.pos) == Some(st.(fixedField := fixedField', fixedSize := fixedSize'))
    ensures ok ==> (iter.pSize == LocalCounter ==> fixedField' == Some(iter.pos))
    ensures ok ==> (fixedField'.Some? ==> fixedField'.value < |fields|)
  {
    fixedField', fixedSize' := fixedField, fixedSize;
    var i := iter.pos;
    if fields[i].htype.Repeated? && iter.pSize == InStruct(iter.pData) {
      if fixedField != Some(i) {
        if fixedField.Some? && fixedSize != fields[fixedField.value].arraySize {
          return false, fixedField, fixedSize;
        }
        fixedField', fixedSize' := Some(i), 0;
      }
      iter.pSize := LocalCounter;
    }
    ok := true;
  }

  /** Setting the bit of a required field. */
  method MarkRequired(fields: seq<Field>, iter: FieldIter, seen: seq<nat>, ghost st: State) returns (seen': seq<nat>)
    requires iter.Valid() && iter.start == fields && fields != []
    requires WordsMatch(seen, st.seen)
    requires forall k: nat | k in st.seen :: k < NumRequired(fields)
    ensures WordsMatch(seen', MarkSeen(fields, st, iter.pos).seen)
    ensures forall k: nat | k in MarkSeen(fields, st, iter.pos).seen :: k < NumRequired(fields)
  {
    hide WordsMatch;
    seen' := seen;
    if fields[iter.pos].htype.Required? && iter.requiredFieldIndex < PB_MAX_REQUIRED_FIELDS {
      var k := iter.requiredFieldIndex;
      WordsMark(seen, st.seen, k);
      RequiredMonotone(fields, iter.pos + 1, |fields|);
      WordsTwo(seen, st.seen);
      seen' := seen[k / 32 := BitOr(seen[k / 32], Pow2(k % 32))];
    }
  }

  /** A record of the field at the iterator's position. */
  method DecKnown(stream: IStream, env: Schema, m: nat, wireType: nat, dest: Message, iter: FieldIter,
                  ghost st: State, seen: seq<nat>, fixedField: Option<nat>, fixedSize: nat)
      returns (ok: bool, ghost st': State, seen': seq<nat>, fixedField': Option<nat>, fixedSize': nat)
    requires stream.Valid() && m < |env| && wireType < 8
    requires iter.Valid() && iter.start == env[m] != []
    requires iter.pSize == LocalCounter ==> fixedField == Some(iter.pos)
    requires Represents(env[m], st, dest.cells, fixedField, fixedSize, seen)
    modifies stream, dest, iter`pSize
    ensures stream.Valid() && stream.End() <= old(stream.End())
    ensures var r := DecodeRecord(env, m, env[m][iter.pos].tag * 8 + wireType, st, old(stream.Remaining()));
      && ok == r.Got?
      && (ok ==> r == Got(st', stream.Remaining()) && stream.End() == old(stream.End()))
    ensures ok ==> iter.Valid()
    ensures ok ==> (iter.pSize == LocalCounter ==> fixedField' == Some(iter.pos))
    ensures ok ==> Represents(env[m], st', dest.cells, fixedField', fixedSize', seen')
    decreases stream.bytesLeft, 3, 0
  {
    hide DecodeField, WordsMatch, EnterFixed, MarkSeen, RequiredBefore, OffsetOf, SizeDelta, FindTag;
    var fields := env[m];
    assert DescriptorOk(m, fields);
    st', seen', fixedField', fixedSize' := st, seen, fixedField, fixedSize;
    var i := iter.pos;
    FindOwnTag(m, fields, i);
    ok, fixedField', fixedSize' := EnterFixedCount(fields, iter, fixedField, fixedSize, st);
    if !ok {
      return;
    }
    ghost var st1 := st.(fixedField := fixedField', fixedSize := fixedSize');
    seen' := MarkRequired(fields, iter, seen, st1);
    ghost var st2 := MarkSeen(fields, st1, i);
    assert st2 == st1.(seen := st2.seen) by { MarkSeenOnly(fields, st1, i); }
    var size;
    ok, size := DecField(stream, env, m, i, wireType, dest, fixedSize', st2);
    fixedSize' := size;
    st' := st2.(cells := dest.cells, fixedSize := size);
  }

  /** One iteration of the loop after the tag. */
  method DecRecord(stream: IStream, env: Schema, m: nat, tag: nat, wireType: nat, dest: Message, iter: FieldIter,
                   ghost st: State, seen: seq<nat>, fixedField: Option<nat>, fixedSize: nat)
      returns (ok: bool, ghost st': State, seen': seq<nat>, fixedField': Option<nat>, fixedSize': nat)
    requires stream.Valid() && m < |env| && wireType < 8
    requires iter.Valid() && iter.start == env[m]
    requires iter.pSize == LocalCounter ==> fixedField == Some(iter.pos)
    requires Represents(env[m], st, dest.cells, fixedField, fixedSize, seen)
    modifies stream, dest, iter
    ensures stream.Valid() && stream.End() <= old(stream.End())
    ensures var r := DecodeRecord(env, m, tag * 8 + wireType, st, old(stream.Remaining()));
      && ok == r.Got?
      && (ok ==> r == Got(st', stream.Remaining()) && stream.End() == old(stream.End()))
    ensures ok ==> iter.Valid()
    ensures ok ==> (iter.pSize == LocalCounter ==> fixedField' == Some(iter.pos))
    ensures ok ==> Represents(env[m], st', dest.cells, fixedField', fixedSize', seen')
    decreases stream.bytesLeft, 3, 1
  {
    hide DecodeField, WordsMatch, SkipField, EnterFixed, MarkSeen, RequiredBefore, ReadVarint32, OffsetOf, SizeDelta;
    var fields := env[m];
    assert DescriptorOk(m, fields);
    st', seen', fixedField', fixedSize' := st, seen, fixedField, fixedSize;
    var found := iter.Find(tag);
    if !found {
      ok := SkipOverField(stream, wireType);
      return;
    }
    if fields == [] {
      // field number 0 matches the terminator of an empty descriptor, which is read as a bool
      var value, eof;
      ok, value, eof := DecodeVarint32(stream);
      return;
    }
    assert fields[iter.pos].tag == tag;
    ok, st', seen', fixedField', fixedSize' :=
      DecKnown(stream, env, m, wireType, dest, iter, st, seen, fixedField, fixedSize);
  }

  lemma MarkSeenOnly(fields: seq<Field>, st: State, i: nat)
    requires i < |fields|
    ensures MarkSeen(fields, st, i) == st.(seen := MarkSeen(fields, st, i).seen)
  {
  }

  lemma WordsTwo(words: seq<nat>, seen: set<nat>)
    requires WordsMatch(words, seen)
    ensures |words| == 2
  {
  }

  /** `pb_decode`. */
  method Decode(stream: IStream, env: Schema, m: nat, dest: Message) returns (ok: bool)
    requires stream.Valid() && m < |env| && |dest.cells| == NumSlots(env[m])
    modifies stream, dest
    ensures stream.Valid() && stream.End() <= old(stream.End())
    ensures var r := PbDecodeSpec.Decode(env, m, old(stream.Remaining()));
      && ok == r.Got?
      && (ok ==> r == Got(dest.cells, stream.Remaining()) && stream.End() == old(stream.End()))
    decreases stream.bytesLeft, 6
  {
    MessageSetToDefaults(env, m, dest);
    ok := DecodeNoinit(stream, env, m, dest);
  }
}
