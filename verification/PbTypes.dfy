/**
  Message descriptors and message contents.

  A descriptor is the generated `pb_field_t` array.  Descriptors are kept in a
  table in the order in which C would have to declare the message structs, so a
  submessage stored by value refers to an earlier entry of the table.  A pointer
  to a submessage may refer to any entry: a descriptor may reach itself.

  The destination struct is modelled as typed cells.  A field's cell holds its
  data together with its has_, _count or which_ member; the members of one union
  share a cell, because the field iterator does not advance inside a union.
*/
module PbTypes {
  import opened Bits
  import opened Collections

  const PB_SIZE_MAX: int := 0xFFFF_FFFF
  const PB_MAX_REQUIRED_FIELDS: int := 64
  /** `offsetof(pb_bytes_array_t, bytes)` with a 32-bit `pb_size_t`. */
  const BYTES_OFFSET: int := 4

  datatype LType =
    | LBool | LVarint | LUvarint | LSvarint | LFixed32 | LFixed64
    | LBytes | LString | LSubmessage | LFixedLengthBytes
  {
    /** At most `PB_LTYPE_LAST_PACKABLE`. */
    predicate Packable() {
      LBool? || LVarint? || LUvarint? || LSvarint? || LFixed32? || LFixed64?
    }
  }

  datatype HType = Required | Optional | Repeated | Oneof
  datatype AType = Static | Pointer | Callback

  /** `pb_field_t.ptr`: a default value or the entry of the submessage's descriptor. */
  datatype Ptr = NullPtr | DefaultPtr(value: Value) | SubmsgPtr(id: nat)

  datatype Field = Field(
    tag: nat,
    ltype: LType,
    htype: HType,
    atype: AType,
    dataOffset: nat,
    sizeOffset: int,
    dataSize: nat,
    arraySize: nat,
    ptr: Ptr)
  {
    /** A repeated field without a _count member. */
    predicate FixedCount() {
      htype.Repeated? && sizeOffset == 0
    }
  }

  datatype Value =
    | VBool(b: bool)
    | VInt(i: int)                  // varint, svarint and fixed-width fields
    | VBytes(bytes: seq<byte>)      // bytes, strings (without the terminator) and inline arrays
    | VMsg(cells: seq<Cell>)
  {
    function AsBool(): bool { if VBool? then b else false }
    function AsInt(): int { if VInt? then i else 0 }
    function AsBytes(): seq<byte> { if VBytes? then bytes else [] }
    function AsCells(): seq<Cell> { if VMsg? then cells else [] }
  }

  datatype Cell =
    | Plain(v: Value)                 // required, and proto3 singular
    | Opt(has: bool, v: Value)        // optional with a has_ member; a pointer and what it points to
    | Arr(items: seq<Value>)          // repeated; |items| is the _count member
    | Unset                           // union, which_ == 0
    | Union(which: nat, v: Value)     // union, which_ != 0
  {
    function Content(): Value { if Plain? || Opt? || Union? then v else VInt(0) }
    function Has(): bool { if Opt? then has else false }
    function Items(): seq<Value> { if Arr? then items else [] }
    function Which(): nat { if Union? then which else 0 }
  }

  /** A field of descriptor `m` of a table: static, or a pointer to a submessage. */
  ghost predicate FieldOk(m: nat, f: Field) {
    && 1 <= f.tag < 0x2000_0000
    && (f.atype.Static? || (f.atype.Pointer? && f.ltype.LSubmessage? && !f.FixedCount()))
    && f.dataSize <= PB_SIZE_MAX && f.arraySize <= PB_SIZE_MAX
    && (f.htype.Oneof? ==> f.sizeOffset != 0)
    && (f.ltype.LBytes? ==> f.dataSize >= BYTES_OFFSET)
    && (f.ltype.LSubmessage? ==> f.ptr.SubmsgPtr? && (f.atype.Static? ==> f.ptr.id < m))
    && (!f.ltype.LSubmessage? ==> !f.ptr.SubmsgPtr?)
  }

  ghost predicate DescriptorOk(m: nat, fields: seq<Field>) {
    && (forall i :: 0 <= i < |fields| ==> FieldOk(m, fields[i]))
    && (forall i, j :: 0 <= i < j < |fields| ==> fields[i].tag != fields[j].tag)
  }

  /** The descriptor of a submessage is in the table. */
  ghost predicate SubmessagesIn(n: nat, fields: seq<Field>) {
    forall i :: 0 <= i < |fields| && fields[i].ltype.LSubmessage? && fields[i].ptr.SubmsgPtr? ==> fields[i].ptr.id < n
  }

  ghost predicate SchemaOk(env: seq<seq<Field>>) {
    forall m :: 0 <= m < |env| ==> DescriptorOk(m, env[m]) && SubmessagesIn(|env|, env[m])
  }

  type Schema = env: seq<seq<Field>> | SchemaOk(env) witness []

  /** A field of a table, with the descriptor of its submessage. */
  ghost predicate FieldIn(env: Schema, m: nat, f: Field) {
    FieldOk(m, f) && m <= |env| && (f.ltype.LSubmessage? ==> f.ptr.id < |env|)
  }

  lemma TableField(env: Schema, m: nat, i: nat)
    requires m < |env| && i < |env[m]|
    ensures FieldIn(env, m, env[m][i])
  {
    assert DescriptorOk(m, env[m]) && SubmessagesIn(|env|, env[m]);
    assert FieldOk(m, env[m][i]);
  }

  // ----- tables without pointers, which nest to a bounded depth -----

  ghost predicate StaticOk(m: nat, f: Field) {
    FieldOk(m, f) && f.atype.Static?
  }

  ghost predicate AllStatic(fields: seq<Field>) {
    forall i :: 0 <= i < |fields| ==> fields[i].atype.Static?
  }

  type StaticSchema = env: Schema | forall m :: 0 <= m < |env| ==> AllStatic(env[m]) witness []

  lemma StaticField(env: StaticSchema, m: nat, i: nat)
    requires m < |env| && i < |env[m]|
    ensures StaticOk(m, env[m][i])
  {
    assert AllStatic(env[m]);
    TableField(env, m, i);
  }

  // ----- slots: which cell a field lives in -----

  /** `pb_field_iter_next` leaves the data pointer alone between these two fields. */
  predicate SameUnion(prev: Field, next: Field) {
    prev.htype.Oneof? && next.htype.Oneof? && next.dataOffset == PB_SIZE_MAX
  }

  function SlotOf(fields: seq<Field>, i: nat): (slot: nat)
    requires i < |fields|
    ensures slot <= i
  {
    if i == 0 then 0
    else if SameUnion(fields[i - 1], fields[i]) then SlotOf(fields, i - 1)
    else SlotOf(fields, i - 1) + 1
  }

  function NumSlots(fields: seq<Field>): nat {
    if fields == [] then 0 else SlotOf(fields, |fields| - 1) + 1
  }

  lemma {:induction false} SlotMonotone(fields: seq<Field>, i: nat, j: nat)
    requires i <= j < |fields|
    ensures SlotOf(fields, i) <= SlotOf(fields, j)
  {
    if i < j {
      SlotMonotone(fields, i, j - 1);
    }
  }

  lemma SlotBound(fields: seq<Field>, i: nat)
    requires i < |fields|
    ensures SlotOf(fields, i) < NumSlots(fields)
  {
    SlotMonotone(fields, i, |fields| - 1);
  }

  /** Two fields that share a cell are members of one union. */
  lemma {:induction false} SharedSlotIsUnion(fields: seq<Field>, i: nat, j: nat)
    requires i < j < |fields| && SlotOf(fields, i) == SlotOf(fields, j)
    ensures fields[i].htype.Oneof? && fields[j].htype.Oneof?
  {
    SlotMonotone(fields, i, j - 1);
    if i < j - 1 {
      SharedSlotIsUnion(fields, i, j - 1);
    }
  }

  function CellAt(cells: seq<Cell>, slot: nat): Cell {
    if slot < |cells| then cells[slot] else Unset
  }

  function SetCell(cells: seq<Cell>, slot: nat, c: Cell): (r: seq<Cell>)
    ensures |r| == |cells|
  {
    if slot < |cells| then cells[slot := c] else cells
  }

  // ----- looking up fields -----

  /** Index of the field with the given tag. */
  function FindTag(fields: seq<Field>, tag: nat): (r: Option<nat>)
    ensures r.Some? ==> r.value < |fields| && fields[r.value].tag == tag
    ensures r.None? ==> forall i :: 0 <= i < |fields| ==> fields[i].tag != tag
  {
    FindTagFrom(fields, tag, 0)
  }

  function FindTagFrom(fields: seq<Field>, tag: nat, i: nat): (r: Option<nat>)
    requires i <= |fields|
    ensures r.Some? ==> i <= r.value < |fields| && fields[r.value].tag == tag
    ensures r.None? ==> forall j :: i <= j < |fields| ==> fields[j].tag != tag
    decreases |fields| - i
  {
    if i == |fields| then None
    else if fields[i].tag == tag then Some(i)
    else FindTagFrom(fields, tag, i + 1)
  }

  lemma FindOwnTag(m: nat, fields: seq<Field>, i: nat)
    requires DescriptorOk(m, fields) && i < |fields|
    ensures FindTag(fields, fields[i].tag) == Some(i)
  {
    var r := FindTag(fields, fields[i].tag);
    assert r.Some?;
  }

  /** Number of required fields among the first `i`. */
  function RequiredBefore(fields: seq<Field>, i: nat): (n: nat)
    requires i <= |fields|
    ensures n <= i
  {
    if i == 0 then 0
    else RequiredBefore(fields, i - 1) + (if fields[i - 1].htype.Required? then 1 else 0)
  }

  function NumRequired(fields: seq<Field>): nat {
    RequiredBefore(fields, |fields|)
  }

  lemma {:induction false} RequiredMonotone(fields: seq<Field>, i: nat, j: nat)
    requires i <= j <= |fields|
    ensures RequiredBefore(fields, i) <= RequiredBefore(fields, j)
  {
    if i < j {
      RequiredMonotone(fields, i, j - 1);
    }
  }

  // ----- default values -----

  function DefaultValue(env: Schema, m: nat, f: Field): Value
    requires FieldOk(m, f) && m <= |env|
    decreases m, 0
  {
    if f.ltype.LSubmessage? then (if f.atype.Static? then VMsg(Defaults(env, f.ptr.id)) else VMsg([]))
    else if f.ptr.DefaultPtr? then f.ptr.value
    else ZeroValue(f)
  }

  /** What `memset(…, 0, data_size)` leaves in a field without submessage. */
  function ZeroValue(f: Field): Value {
    match f.ltype
    case LBool => VBool(false)
    case LBytes => VBytes([])
    case LString => VBytes([])
    case LFixedLengthBytes => VBytes(seq(f.dataSize, _ => 0))
    case _ => VInt(0)
  }

  /** `pb_field_set_to_default`.  A pointer is NULL.  The contents of a fixed-count array are left
      unspecified by the source and shown here as an empty array. */
  function DefaultCell(env: Schema, m: nat, f: Field): Cell
    requires FieldOk(m, f) && m <= |env|
    decreases m, 1
  {
    match f.htype
    case Required => if f.atype.Pointer? then Opt(false, VMsg([])) else Plain(DefaultValue(env, m, f))
    case Optional =>
      if f.atype.Pointer? then Opt(false, VMsg([]))
      else if f.sizeOffset != 0 then Opt(false, DefaultValue(env, m, f)) else Plain(DefaultValue(env, m, f))
    case Repeated => Arr([])
    case Oneof => Unset
  }

  /** The cells of the first `n` fields after `pb_message_set_to_defaults`. */
  function DefaultsUpTo(env: Schema, m: nat, n: nat): (cells: seq<Cell>)
    requires m < |env| && n <= |env[m]|
    ensures |cells| == if n == 0 then 0 else SlotOf(env[m], n - 1) + 1
    decreases m, 2, n
  {
    if n == 0 then []
    else
      var before := DefaultsUpTo(env, m, n - 1);
      if n > 1 && SameUnion(env[m][n - 2], env[m][n - 1]) then before
      else
        assert FieldOk(m, env[m][n - 1]);
        before + [DefaultCell(env, m, env[m][n - 1])]
  }

  /** `pb_message_set_to_defaults`. */
  function Defaults(env: Schema, m: nat): (cells: seq<Cell>)
    requires m < |env|
    ensures |cells| == NumSlots(env[m])
    decreases m, 3
  {
    DefaultsUpTo(env, m, |env[m]|)
  }

  lemma {:induction false} DefaultsPrefix(env: Schema, m: nat, n: nat, k: nat)
    requires m < |env| && n <= k <= |env[m]|
    ensures DefaultsUpTo(env, m, n) <= DefaultsUpTo(env, m, k)
  {
    hide DefaultCell, SlotOf, SameUnion;
    if n < k {
      DefaultsPrefix(env, m, n, k - 1);
    }
  }

  /** Every field finds its own default in its cell. */
  lemma {:induction false} DefaultsAt(env: Schema, m: nat, i: nat)
    requires m < |env| && i < |env[m]|
    ensures SlotOf(env[m], i) < |Defaults(env, m)|
    ensures Defaults(env, m)[SlotOf(env[m], i)] == DefaultCell(env, m, env[m][i])
  {
    DefaultsOwn(env, m, i);
    DefaultsPrefix(env, m, i + 1, |env[m]|);
  }

  lemma {:induction false} DefaultsOwn(env: Schema, m: nat, i: nat)
    requires m < |env| && i < |env[m]|
    ensures DefaultsUpTo(env, m, i + 1)[SlotOf(env[m], i)] == DefaultCell(env, m, env[m][i])
  {
    if i > 0 && SameUnion(env[m][i - 1], env[m][i]) {
      DefaultsOwn(env, m, i - 1);
    }
  }
}
