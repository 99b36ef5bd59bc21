/**
  What pb_encode.c emits for a message: the bytes, in order, up to the point
  where encoding stops, and whether it got to the end.  The stream plays no part
  here; PbEncode.dfy proves the writing code against this.
*/
module PbEncodeSpec {
  import opened Bits
  import opened PbWire
  import opened PbTypes

  /** The bytes emitted, and whether encoding completed. */
  datatype Emission = Emission(ok: bool, bytes: seq<byte>)

  const NOTHING: Emission := Emission(true, [])
  const FAILURE: Emission := Emission(false, [])

  /** `a`, and then `b` unless `a` failed. */
  function Then(a: Emission, b: Emission): Emission {
    if a.ok then Emission(b.ok, a.bytes + b.bytes) else a
  }

  lemma ThenAssociative(a: Emission, b: Emission, c: Emission)
    ensures Then(Then(a, b), c) == Then(a, Then(b, c))
    ensures Then(a, NOTHING) == a && Then(NOTHING, a) == a
  {
    assert a.bytes + b.bytes + c.bytes == a.bytes + (b.bytes + c.bytes);
    assert a.bytes + [] == a.bytes && [] + a.bytes == a.bytes;
  }

  // ----- single values -----

  /** `pb_encode_string`: a length and the bytes. */
  function Delimited(b: seq<byte>): seq<byte> {
    VarintBytes(Word64(|b|)) + b
  }

  /** Length of a C string in a buffer of `max` bytes. */
  function StrLen(b: seq<byte>, max: nat): (n: nat)
    ensures n <= |b| && n <= max
    ensures forall i :: 0 <= i < n ==> b[i] != 0
    ensures n < |b| && n < max ==> b[n] == 0
  {
    if max == 0 || b == [] || b[0] == 0 then 0 else 1 + StrLen(b[1..], max - 1)
  }

  /** The `n` bytes of an inline array. */
  function Inline(b: seq<byte>, n: nat): (r: seq<byte>)
    ensures |r| == n
    ensures |b| == n ==> r == b
  {
    if |b| >= n then b[..n] else b + seq(n - |b|, _ => 0)
  }

  predicate IntSize(n: nat) {
    n == 1 || n == 2 || n == 4 || n == 8
  }

  /** The `pb_enc_*` functions, except `pb_enc_submessage`. */
  function EncodeScalar(f: Field, v: Value): Emission {
    match f.ltype
    case LBool => Emission(true, VarintBytes(if v.AsBool() then 1 else 0))
    case LVarint => if IntSize(f.dataSize) then Emission(true, VarintBytes(Word64(v.AsInt()))) else FAILURE
    case LUvarint => if IntSize(f.dataSize) then Emission(true, VarintBytes(Word64(v.AsInt()))) else FAILURE
    case LSvarint => if IntSize(f.dataSize) then Emission(true, VarintBytes(ZigZag(Int64(v.AsInt())))) else FAILURE
    case LFixed32 => Emission(true, FixedBytes(Word32(v.AsInt()), 4))
    case LFixed64 => Emission(true, FixedBytes(Word64(v.AsInt()), 8))
    case LBytes =>
      if |v.AsBytes()| > f.dataSize - BYTES_OFFSET then FAILURE else Emission(true, Delimited(v.AsBytes()))
    case LString => Emission(true, Delimited(v.AsBytes()[..StrLen(v.AsBytes(), f.dataSize)]))
    case LFixedLengthBytes => Emission(true, Delimited(Inline(v.AsBytes(), f.dataSize)))
    case LSubmessage => FAILURE
  }

  function WireTypeOf(l: LType): nat {
    match l
    case LFixed32 => WT_32BIT
    case LFixed64 => WT_64BIT
    case LBytes => WT_STRING
    case LString => WT_STRING
    case LSubmessage => WT_STRING
    case LFixedLengthBytes => WT_STRING
    case _ => WT_VARINT
  }

  /** `pb_encode_tag`. */
  function TagBytes(wireType: nat, tag: nat): seq<byte> {
    VarintBytes(Word64(tag * 8 + wireType))
  }

  function EncodeTag(f: Field): Emission {
    Emission(true, TagBytes(WireTypeOf(f.ltype), f.tag))
  }

  // ----- arrays -----

  /** The data of a packed array, from entry `k` on. */
  function EncodePackedFrom(f: Field, items: seq<Value>, k: nat): Emission
    requires k <= |items|
    decreases |items| - k
  {
    if k == |items| then NOTHING
    else Then(EncodeScalar(f, items[k]), EncodePackedFrom(f, items, k + 1))
  }

  function EncodePacked(f: Field, items: seq<Value>): Emission {
    var data := EncodePackedFrom(f, items, 0);
    Then(Emission(true, TagBytes(WT_STRING, f.tag)),
         if data.ok then Emission(true, Delimited(data.bytes)) else FAILURE)
  }

  /** An unpacked array, from entry `k` on: one record per entry. */
  function EncodeUnpackedFrom(env: StaticSchema, m: nat, f: Field, items: seq<Value>, k: nat): Emission
    requires StaticOk(m, f) && m <= |env| && k <= |items|
    decreases m, 1, |items| - k
  {
    if k == |items| then NOTHING
    else Then(EncodeRecord(env, m, f, items[k]), EncodeUnpackedFrom(env, m, f, items, k + 1))
  }

  /** `encode_array`. */
  function EncodeArray(env: StaticSchema, m: nat, f: Field, items: seq<Value>): Emission
    requires StaticOk(m, f) && m <= |env|
    decreases m, 2
  {
    if items == [] then NOTHING
    else if |items| > f.arraySize then FAILURE
    else if f.ltype.Packable() then EncodePacked(f, items)
    else EncodeUnpackedFrom(env, m, f, items, 0)
  }

  // ----- submessages and records -----

  /** The functions of `PB_ENCODERS`. */
  function EncodeValue(env: StaticSchema, m: nat, f: Field, v: Value): Emission
    requires StaticOk(m, f) && m <= |env|
    decreases m, 0, 0
  {
    if f.ltype.LSubmessage? then
      var body := EncodeMsg(env, f.ptr.id, v.AsCells());
      if body.ok then Emission(true, Delimited(body.bytes)) else FAILURE
    else EncodeScalar(f, v)
  }

  /** A tag and a value. */
  function EncodeRecord(env: StaticSchema, m: nat, f: Field, v: Value): Emission
    requires StaticOk(m, f) && m <= |env|
    decreases m, 0, 1
  {
    Then(EncodeTag(f), EncodeValue(env, m, f, v))
  }

  /** The bytes of the member that holds a number or a truth value. */
  function MemberBytes(f: Field, v: Value): (b: seq<byte>)
    ensures |b| == f.dataSize
  {
    var x := if v.VBool? then (if v.b then 1 else 0) else v.AsInt();
    FixedBytes(x % Pow2(8 * f.dataSize), f.dataSize)
  }

  predicate AllZero(b: seq<byte>) {
    forall k :: 0 <= k < |b| ==> b[k] == 0
  }

  /** `pb_check_proto3_default_value` on a field without submessage. */
  predicate ScalarIsZero(f: Field, v: Value) {
    match f.ltype
    case LBytes => v.AsBytes() == []
    case LString => v.AsBytes() == [] || v.AsBytes()[0] == 0
    case LFixedLengthBytes => f.dataSize == 0
    case LSubmessage => false
    case _ => AllZero(MemberBytes(f, v))
  }

  /** `pb_check_proto3_default_value`. */
  predicate IsDefault(env: StaticSchema, m: nat, f: Field, cell: Cell)
    requires StaticOk(m, f) && m <= |env|
    decreases m, 0, 0
  {
    match f.htype
    case Required => false
    case Repeated => if f.sizeOffset != 0 then cell.Items() == [] else false
    case Oneof => cell.Which() == 0
    case Optional =>
      if f.sizeOffset != 0 then !cell.Has()
      else if f.ltype.LSubmessage? then AllDefaultFrom(env, f.ptr.id, cell.Content().AsCells(), 0)
      else ScalarIsZero(f, cell.Content())
  }

  predicate AllDefaultFrom(env: StaticSchema, m: nat, cells: seq<Cell>, i: nat)
    requires m < |env| && i <= |env[m]|
    decreases m, 1, |env[m]| - i
  {
    if i == |env[m]| then true
    else
      StaticField(env, m, i);
      && IsDefault(env, m, env[m][i], CellAt(cells, SlotOf(env[m], i)))
      && AllDefaultFrom(env, m, cells, i + 1)
  }

  /** Whether `encode_basic_field` writes anything for this field (arrays aside). */
  predicate Present(env: StaticSchema, m: nat, f: Field, cell: Cell)
    requires StaticOk(m, f) && m <= |env|
  {
    match f.htype
    case Required => true
    case Optional => if f.sizeOffset != 0 then cell.Has() else !IsDefault(env, m, f, cell)
    case Repeated => cell.Items() != []
    case Oneof => cell.Which() == f.tag
  }

  /** `encode_basic_field`. */
  function EncodeField(env: StaticSchema, m: nat, f: Field, cell: Cell): Emission
    requires StaticOk(m, f) && m <= |env|
    decreases m, 3
  {
    if f.htype.Repeated? then EncodeArray(env, m, f, cell.Items())
    else if Present(env, m, f, cell) then EncodeRecord(env, m, f, cell.Content())
    else NOTHING
  }

  /** `pb_encode` from the `i`-th field on. */
  function EncodeFrom(env: StaticSchema, m: nat, cells: seq<Cell>, i: nat): Emission
    requires m < |env| && i <= |env[m]|
    decreases m, 4, |env[m]| - i
  {
    if i == |env[m]| then NOTHING
    else
      StaticField(env, m, i);
      Then(EncodeField(env, m, env[m][i], CellAt(cells, SlotOf(env[m], i))), EncodeFrom(env, m, cells, i + 1))
  }

  /** `pb_encode`. */
  function EncodeMsg(env: StaticSchema, m: nat, cells: seq<Cell>): Emission
    requires m < |env|
    decreases m, 5
  {
    EncodeFrom(env, m, cells, 0)
  }
}
