/**
  What pb_decode.c makes of a byte sequence: the functions below follow the
  decoder record by record.  A stream is the sequence of bytes left in it, so a
  substream is a subsequence and `bytes_left` is a length.  PbDecode.dfy proves
  the reading code against this.
*/
module PbDecodeSpec {
  import opened Bits
  import opened Collections
  import opened PbWire
  import opened PbTypes
  import opened PbEncodeSpec

  /** State of the loop of `pb_decode_noinit`: the destination, the fixed-count array in
      progress and how many entries it has, and which required fields were seen. */
  datatype State = State(cells: seq<Cell>, fixedField: Option<nat>, fixedSize: nat, seen: set<nat>)

  function Start(cells: seq<Cell>): State {
    State(cells, None, 0, {})
  }

  /** Outcome of the loop: an error, the end of the stream, or a zero tag before it. */
  datatype Outcome = Failed | Ended(st: State) | Stopped(st: State, rest: seq<byte>)

  // ----- single values -----

  /** Assigning `v` to a signed integer of `n` bytes. */
  function SignedCast(v: int, n: nat): int {
    if n == 1 then (v + 0x80) % 0x100 - 0x80
    else if n == 2 then (v + 0x8000) % 0x1_0000 - 0x8000
    else if n == 4 then (v + 0x8000_0000) % 0x1_0000_0000 - 0x8000_0000
    else Int64(v)
  }

  function UnsignedCast(v: int, n: nat): int {
    if n == 1 then v % 0x100
    else if n == 2 then v % 0x1_0000
    else if n == 4 then Word32(v)
    else Word64(v)
  }

  /** `pb_dec_varint` after the varint has been read: negative values of narrow fields may
      come as 32-bit patterns. */
  function DecodeSigned(f: Field, value: nat): Option<int> {
    var svalue := if f.dataSize == 8 then SignedCast(value, 8) else SignedCast(value, 4);
    if IntSize(f.dataSize) && SignedCast(svalue, f.dataSize) == svalue then Some(svalue) else None
  }

  function DecodeUnsigned(f: Field, value: nat): Option<int> {
    if IntSize(f.dataSize) && UnsignedCast(value, f.dataSize) == value then Some(value) else None
  }

  function DecodeZigZag(f: Field, value: nat): Option<int> {
    var svalue := UnZigZag(value);
    if IntSize(f.dataSize) && SignedCast(svalue, f.dataSize) == svalue then Some(svalue) else None
  }

  function IntRead(r: Read<nat>, i: Option<int>): (v: Read<Value>)
    ensures v.Got? ==> r.Got? && v.rest == r.rest
  {
    if r.Got? && i.Some? then Got(VInt(i.value), r.rest) else Bad
  }

  function BytesRead(r: Read<seq<byte>>): (v: Read<Value>)
    ensures v.Got? ==> r.Got? && v.rest == r.rest
  {
    match r case Bad => Bad case Got(b, rest) => Got(VBytes(b), rest)
  }

  /** The `pb_dec_*` functions, except `pb_dec_submessage`. */
  function DecodeScalar(f: Field, s: seq<byte>): (r: Read<Value>)
    ensures r.Got? ==> |r.rest| < |s|
  {
    match f.ltype
    case LBool => DecodeBool(s)
    case LVarint => var r := ReadVarint(s); IntRead(r, if r.Got? then DecodeSigned(f, r.v) else None)
    case LUvarint => var r := ReadVarint(s); IntRead(r, if r.Got? then DecodeUnsigned(f, r.v) else None)
    case LSvarint => var r := ReadVarint(s); IntRead(r, if r.Got? then DecodeZigZag(f, r.v) else None)
    case LFixed32 => DecodeFixed(s, 4)
    case LFixed64 => DecodeFixed(s, 8)
    case LBytes => DecodeBytes(f, s)
    case LString => DecodeString(f, s)
    case LFixedLengthBytes => DecodeInline(f, s)
    case LSubmessage => Bad
  }

  function DecodeBool(s: seq<byte>): (r: Read<Value>)
    ensures r.Got? ==> |r.rest| < |s|
  {
    match ReadVarint32(s) case Bad => Bad case Got(v, rest) => Got(VBool(v != 0), rest)
  }

  function DecodeFixed(s: seq<byte>, n: nat): (r: Read<Value>)
    ensures r.Got? ==> |r.rest| + n == |s|
  {
    match ReadBytes(s, n) case Bad => Bad case Got(b, rest) => Got(VInt(LittleEndian(b)), rest)
  }

  /** `pb_dec_bytes`. */
  function DecodeBytes(f: Field, s: seq<byte>): (r: Read<Value>)
    ensures r.Got? ==> |r.rest| < |s|
  {
    match ReadVarint32(s)
    case Bad => Bad
    case Got(size, rest) =>
      if size + BYTES_OFFSET > f.dataSize then Bad else BytesRead(ReadBytes(rest, size))
  }

  /** `pb_dec_string`; the sum with the terminator is computed in 32 bits. */
  function DecodeString(f: Field, s: seq<byte>): (r: Read<Value>)
    ensures r.Got? ==> |r.rest| < |s|
  {
    match ReadVarint32(s)
    case Bad => Bad
    case Got(size, rest) =>
      var allocSize := Word32(size + 1);
      if allocSize < size || allocSize > f.dataSize then Bad else BytesRead(ReadBytes(rest, size))
  }

  /** `pb_dec_fixed_length_bytes`; an empty string stands for all zeros. */
  function DecodeInline(f: Field, s: seq<byte>): (r: Read<Value>)
    ensures r.Got? ==> |r.rest| < |s|
  {
    match ReadVarint32(s)
    case Bad => Bad
    case Got(size, rest) =>
      if size == 0 then Got(VBytes(seq(f.dataSize, _ => 0)), rest)
      else if size != f.dataSize then Bad
      else BytesRead(ReadBytes(rest, size))
  }

  // ----- arrays -----

  /** Entry `k` of an array is written. */
  function PutItem(items: seq<Value>, k: nat, v: Value): seq<Value> {
    if k < |items| then items[k := v] else items + [v]
  }

  datatype PackedResult = PackedBad | PackedOk(items: seq<Value>, count: nat)

  /** The loop over a packed array's substream: entries until the data or the array ends;
      data left over is an overflow. */
  function DecodePacked(f: Field, items: seq<Value>, count: nat, s: seq<byte>): PackedResult
    decreases |s|
  {
    if s == [] then PackedOk(items, count)
    else if count >= f.arraySize then PackedBad
    else
      match DecodeScalar(f, s)
      case Bad => PackedBad
      case Got(v, rest) => DecodePacked(f, PutItem(items, count, v), count + 1, rest)
  }

  // ----- records -----

  /** `pb_decode_tag`'s key: zero ends the message. */
  function ReadKey(s: seq<byte>): (r: Read<nat>)
    ensures r.Got? ==> |r.rest| < |s|
  {
    ReadVarint32(s)
  }

  /** The bookkeeping for fixed-count arrays before a record of field `i`. */
  function EnterFixed(fields: seq<Field>, st: State, i: nat): Option<State>
    requires i < |fields|
  {
    if !fields[i].FixedCount() || st.fixedField == Some(i) then Some(st)
    else if st.fixedField.Some? && st.fixedField.value < |fields|
            && st.fixedSize != fields[st.fixedField.value].arraySize then None
    else Some(st.(fixedField := Some(i), fixedSize := 0))
  }

  /** Recording that a required field occurred. */
  function MarkSeen(fields: seq<Field>, st: State, i: nat): State
    requires i < |fields|
  {
    if fields[i].htype.Required? && RequiredBefore(fields, i) < PB_MAX_REQUIRED_FIELDS
    then st.(seen := st.seen + {RequiredBefore(fields, i)})
    else st
  }

  /** How many entries of array field `i` have been received. */
  function CountOf(f: Field, st: State, items: seq<Value>): nat {
    if f.FixedCount() then st.fixedSize else |items|
  }

  function PutArray(f: Field, st: State, slot: nat, items: seq<Value>, count: nat): State {
    var st' := st.(cells := SetCell(st.cells, slot, Arr(items)));
    if f.FixedCount() then st'.(fixedSize := count) else st'
  }

  /** A packed record of an array field. */
  function DecodePackedField(f: Field, st: State, slot: nat, s: seq<byte>): (r: Read<State>)
    ensures r.Got? ==> |r.rest| <= |s|
  {
    match ReadSubstream(s)
    case Bad => Bad
    case Got(body, rest) =>
      var items := CellAt(st.cells, slot).Items();
      match DecodePacked(f, items, CountOf(f, st, items), body)
      case PackedBad => Bad
      case PackedOk(items', count') => Got(PutArray(f, st, slot, items', count'), rest)
  }

  /** The content a value decoder starts from.  What a pointer points to is released and
      allocated anew. */
  function OldContent(env: Schema, m: nat, f: Field, cell: Cell): Value
    requires FieldIn(env, m, f)
  {
    if !f.ltype.LSubmessage? then VInt(0)
    else if f.htype.Repeated? || f.atype.Pointer? then VMsg(Defaults(env, f.ptr.id))
    else if f.htype.Oneof? && cell.Which() != f.tag then VMsg(Defaults(env, f.ptr.id))
    else cell.Content()
  }

  /** The functions of `PB_DECODERS`. */
  ghost function DecodeValue(env: Schema, m: nat, f: Field, init: Value, s: seq<byte>): (r: Read<Value>)
    requires FieldIn(env, m, f)
    ensures r.Got? ==> |r.rest| < |s|
    decreases |s|, 0
  {
    if !f.ltype.LSubmessage? then DecodeScalar(f, s)
    else
      match ReadSubstream(s)
      case Bad => Bad
      case Got(body, rest) =>
        match DecodeMsg(env, f.ptr.id, init.AsCells(), body)
        case Bad => Bad
        case Got(cells, _) => Got(VMsg(cells), rest)
  }

  /** With allocation enabled the member a union holds is released before another one is
      decoded into it; a which_ value that names no field is an error. */
  predicate UnionOk(fields: seq<Field>, f: Field, cell: Cell) {
    cell.Which() == 0 || cell.Which() == f.tag || FindTag(fields, cell.Which()).Some?
  }

  function StoreValue(f: Field, v: Value): Cell {
    match f.htype
    case Required => if f.atype.Pointer? then Opt(true, v) else Plain(v)
    case Optional => if f.atype.Pointer? || f.sizeOffset != 0 then Opt(true, v) else Plain(v)
    case Repeated => Arr([v])
    case Oneof => Union(f.tag, v)
  }

  /** How many entries an array can have. */
  function Capacity(f: Field): nat {
    if f.atype.Pointer? then PB_SIZE_MAX else f.arraySize
  }

  /** `decode_field`. */
  ghost function DecodeField(env: Schema, m: nat, i: nat, wireType: nat, st: State, s: seq<byte>): (r: Read<State>)
    requires m < |env| && i < |env[m]|
    ensures r.Got? ==> |r.rest| <= |s|
    decreases |s|, 1
  {
    var f := env[m][i];
    TableField(env, m, i);
    var slot := SlotOf(env[m], i);
    var cell := CellAt(st.cells, slot);
    if f.htype.Repeated? && wireType == WT_STRING && f.ltype.Packable() then DecodePackedField(f, st, slot, s)
    else if f.htype.Repeated? && CountOf(f, st, cell.Items()) >= Capacity(f) then Bad
    else if f.atype.Pointer? && f.dataSize == 0 then Bad        // nothing to allocate
    else if f.htype.Oneof? && !UnionOk(env[m], f, cell) then Bad
    else
      match DecodeValue(env, m, f, OldContent(env, m, f, cell), s)
      case Bad => Bad
      case Got(v, rest) =>
        if f.htype.Repeated? then
          var count := CountOf(f, st, cell.Items());
          Got(PutArray(f, st, slot, PutItem(cell.Items(), count, v), count + 1), rest)
        else Got(st.(cells := SetCell(st.cells, slot, StoreValue(f, v))), rest)
  }

  /** A payload that is read over leaves the state alone. */
  function Discarded(st: State, r: Read<()>): (d: Read<State>)
    ensures r.Got? <==> d.Got?
    ensures r.Got? ==> d.rest == r.rest
  {
    match r case Bad => Bad case Got(_, rest) => Got(st, rest)
  }

  /** One iteration of `pb_decode_noinit` after its key has been read. */
  ghost function DecodeRecord(env: Schema, m: nat, key: nat, st: State, s: seq<byte>): (r: Read<State>)
    requires m < |env|
    ensures r.Got? ==> |r.rest| <= |s|
    decreases |s|, 2
  {
    match FindTag(env[m], key / 8)
    case None =>
      if key / 8 == 0 && env[m] == [] then
        // the terminator of an empty descriptor matches field number 0 and is read as a bool
        Discarded(st, Forget(ReadVarint32(s)))
      else Discarded(st, SkipField(key % 8, s))
    case Some(i) =>
      match EnterFixed(env[m], st, i)
      case None => Bad
      case Some(st1) => DecodeField(env, m, i, key % 8, MarkSeen(env[m], st1, i), s)
  }

  /** The loop of `pb_decode_noinit`. */
  ghost function Run(env: Schema, m: nat, st: State, s: seq<byte>): (r: Outcome)
    requires m < |env|
    ensures r.Stopped? ==> |r.rest| < |s|
    decreases |s|, 3
  {
    if s == [] then Ended(st)
    else
      match ReadKey(s)
      case Bad => Failed
      case Got(key, rest) =>
        if key == 0 then Stopped(st, rest)
        else
          match DecodeRecord(env, m, key, st, rest)
          case Bad => Failed
          case Got(st', rest') => Run(env, m, st', rest')
  }

  /** The checks after the loop. */
  ghost predicate Complete(fields: seq<Field>, st: State) {
    FixedComplete(fields, st) && RequiredComplete(fields, st)
  }

  ghost predicate FixedComplete(fields: seq<Field>, st: State) {
    st.fixedField.Some? && st.fixedField.value < |fields| ==>
      st.fixedSize == fields[st.fixedField.value].arraySize
  }

  ghost predicate RequiredComplete(fields: seq<Field>, st: State) {
    forall k: nat | k < NumRequired(fields) && k < PB_MAX_REQUIRED_FIELDS :: k in st.seen
  }

  /** `pb_decode_noinit`. */
  ghost function DecodeMsg(env: Schema, m: nat, cells: seq<Cell>, s: seq<byte>): (r: Read<seq<Cell>>)
    requires m < |env|
    ensures r.Got? ==> |r.rest| <= |s|
    decreases |s|, 4
  {
    match Run(env, m, Start(cells), s)
    case Failed => Bad
    case Ended(st) => if Complete(env[m], st) then Got(st.cells, []) else Bad
    case Stopped(st, rest) => if Complete(env[m], st) then Got(st.cells, rest) else Bad
  }

  /** `pb_decode`. */
  ghost function Decode(env: Schema, m: nat, s: seq<byte>): Read<seq<Cell>>
    requires m < |env|
  {
    DecodeMsg(env, m, Defaults(env, m), s)
  }
}
