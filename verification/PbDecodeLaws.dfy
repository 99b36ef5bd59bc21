/**
  What a record does to a message, field rule by field rule: which payloads a type
  accepts and as which value, that the last value of a singular field wins, that
  submessages merge, that arrays grow, that a union holds what came last.  The
  records are those of the wire format.
*/
module PbDecodeLaws {
  import opened Bits
  import opened Collections
  import opened PbWire
  import PbVarint32
  import opened PbTypes
  import opened PbEncodeSpec
  import opened PbDecodeSpec
  import opened PbRuns
  import opened PbRoundTrip
  import opened PbWireFormat

  // ----- the value of a payload -----

  /** A payload of the shape that the type is written with. */
  predicate Matches(f: Field, p: Payload) {
    match f.ltype
    case LBool => p.Varint? && p.n < 0x1_0000_0000
    case LVarint => p.Varint? && p.n < 0x1_0000_0000_0000_0000
    case LUvarint => p.Varint? && p.n < 0x1_0000_0000_0000_0000
    case LSvarint => p.Varint? && p.n < 0x1_0000_0000_0000_0000
    case LFixed32 => p.Fixed32? && p.n < 0x1_0000_0000
    case LFixed64 => p.Fixed64? && p.n < 0x1_0000_0000_0000_0000
    case _ => p.Len? && |p.bytes| < 0x1_0000_0000
  }

  /** Two's complement. */
  function Signed32(n: nat): int {
    var low := n % 0x1_0000_0000;
    if low < 0x8000_0000 then low else low - 0x1_0000_0000
  }

  function Signed64(n: nat): int {
    if n < 0x8000_0000_0000_0000 then n else n - 0x1_0000_0000_0000_0000
  }

  predicate MemberSize(n: nat) {
    n == 1 || n == 2 || n == 4 || n == 8
  }

  function IfFits(ok: bool, v: Value): Option<Value> {
    if ok then Some(v) else None
  }

  /** The value that a field takes from a payload, if it has room for it.  A narrow `int32` looks
      at the low 32 bits only. */
  function Reading(f: Field, p: Payload): Option<Value>
    requires Matches(f, p)
  {
    match f.ltype
    case LBool => Some(VBool(p.n > 0))
    case LVarint =>
      var i := if f.dataSize == 8 then Signed64(p.n) else Signed32(p.n);
      IfFits(MemberSize(f.dataSize) && FitsSigned(i, f.dataSize), VInt(i))
    case LUvarint => IfFits(MemberSize(f.dataSize) && FitsUnsigned(p.n, f.dataSize), VInt(p.n))
    case LSvarint =>
      var i := if p.n % 2 == 0 then p.n / 2 else -((p.n + 1) / 2);
      IfFits(MemberSize(f.dataSize) && FitsSigned(i, f.dataSize), VInt(i))
    case LFixed32 => Some(VInt(p.n))
    case LFixed64 => Some(VInt(p.n))
    case LBytes => IfFits(|p.bytes| + 4 <= f.dataSize, VBytes(p.bytes))
    case LString => IfFits(|p.bytes| + 1 <= f.dataSize, VBytes(p.bytes))
    case LFixedLengthBytes =>
      if p.bytes == [] then Some(VBytes(seq(f.dataSize, _ => 0)))
      else IfFits(|p.bytes| == f.dataSize, VBytes(p.bytes))
    case LSubmessage => None
  }

  /** A value that was read, with what follows it. */
  function ReadAs(v: Option<Value>, t: seq<byte>): Read<Value> {
    if v.None? then Bad else Got(v.value, t)
  }

  function AsValue(i: Option<int>): Option<Value> {
    match i case None => None case Some(n) => Some(VInt(n))
  }

  lemma CastFits(i: int, n: nat)
    requires MemberSize(n) && -0x8000_0000_0000_0000 <= i < 0x8000_0000_0000_0000
    ensures SignedCast(i, n) == i <==> FitsSigned(i, n)
  {
  }

  lemma UnsignedFits(v: nat, n: nat)
    requires MemberSize(n)
    ensures UnsignedCast(v, n) == v <==> FitsUnsigned(v, n)
  {
  }

  lemma TwosComplement(v: nat)
    requires v < U64
    ensures SignedCast(v, 4) == Signed32(v) && SignedCast(v, 8) == Signed64(v)
  {
  }

  lemma SignedReading(f: Field, n: nat)
    requires f.ltype.LVarint? && n < U64
    ensures AsValue(DecodeSigned(f, n)) == Reading(f, Varint(n))
  {
    hide SignedCast;
    TwosComplement(n);
    if MemberSize(f.dataSize) {
      CastFits(if f.dataSize == 8 then Signed64(n) else Signed32(n), f.dataSize);
    }
  }

  lemma UnsignedReading(f: Field, n: nat)
    requires f.ltype.LUvarint? && n < U64
    ensures AsValue(DecodeUnsigned(f, n)) == Reading(f, Varint(n))
  {
    hide UnsignedCast, FitsUnsigned;
    if MemberSize(f.dataSize) {
      UnsignedFits(n, f.dataSize);
    }
  }

  lemma ZigZagReading(f: Field, n: nat)
    requires f.ltype.LSvarint? && n < U64
    ensures AsValue(DecodeZigZag(f, n)) == Reading(f, Varint(n))
  {
    hide SignedCast, FitsSigned;
    assert UnZigZag(n) == if n % 2 == 0 then n / 2 else -((n + 1) / 2);
    if MemberSize(f.dataSize) {
      CastFits(UnZigZag(n), f.dataSize);
    }
  }

  lemma FixedReading(n: nat, size: nat, t: seq<byte>)
    requires n < Pow2(8 * size)
    ensures DecodeFixed(LowByteFirst(n, size) + t, size) == Got(VInt(n), t)
  {
    hide Pow2;
    var b := FixedBytes(n, size);
    FixedIsLowFirst(n, size);
    FixedRoundTrip(n, size);
    assert (b + t)[..size] == b && (b + t)[size..] == t;
  }

  lemma LenIsDelimited(b: seq<byte>)
    requires |b| < U32
    ensures PayloadBytes(Len(b)) == Delimited(b)
  {
  }

  lemma BytesReading(f: Field, b: seq<byte>, t: seq<byte>)
    requires f.ltype.LBytes? || f.ltype.LString? || f.ltype.LFixedLengthBytes?
    requires f.dataSize <= PB_SIZE_MAX && |b| < U32
    ensures DecodeScalar(f, PayloadBytes(Len(b)) + t) ==
            ReadAs(Reading(f, Len(b)), t)
  {
    hide ReadVarint32, Delimited;
    LenIsDelimited(b);
    DelimitedRead(b, t);
    if b == [] {
      assert b + t == t;
    }
  }

  lemma VarintReading(f: Field, n: nat, t: seq<byte>)
    requires f.ltype.LVarint? || f.ltype.LUvarint? || f.ltype.LSvarint?
    requires n < U64
    ensures DecodeScalar(f, VarintBytes(n) + t) ==
            ReadAs(Reading(f, Varint(n)), t)
  {
    hide VarintBytes, ReadVarint, DecodeSigned, DecodeUnsigned, DecodeZigZag, Reading;
    VarintRoundTrip(n, t);
    match f.ltype
    case LVarint => SignedReading(f, n);
    case LUvarint => UnsignedReading(f, n);
    case LSvarint => ZigZagReading(f, n);
  }

  lemma PlainReading(f: Field, p: Payload, t: seq<byte>)
    requires f.ltype.LBool? || f.ltype.LFixed32? || f.ltype.LFixed64?
    requires Matches(f, p)
    ensures DecodeScalar(f, PayloadBytes(p) + t) ==
            ReadAs(Reading(f, p), t)
  {
    hide VarintBytes, ReadVarint32, DecodeFixed, LowByteFirst, Pow2;
    match f.ltype
    case LBool => PbVarint32.Varint32Ranges(p.n, t);
    case LFixed32 => FixedRange(p.n); FixedReading(p.n, 4, t);
    case LFixed64 => FixedRange(p.n); FixedReading(p.n, 8, t);
  }

  /** Every payload of the right shape is accepted exactly when its value fits, as that value,
      and what follows it is left alone. */
  lemma ReadsPayload(f: Field, p: Payload, t: seq<byte>)
    requires Matches(f, p) && f.dataSize <= PB_SIZE_MAX
    ensures DecodeScalar(f, PayloadBytes(p) + t) ==
            ReadAs(Reading(f, p), t)
  {
    hide VarintBytes, LowByteFirst, ReadVarint, ReadVarint32, DecodeFixed, DecodeBytes, DecodeString, DecodeInline;
    match f.ltype
    case LVarint => VarintReading(f, p.n, t);
    case LUvarint => VarintReading(f, p.n, t);
    case LSvarint => VarintReading(f, p.n, t);
    case LBool => PlainReading(f, p, t);
    case LFixed32 => PlainReading(f, p, t);
    case LFixed64 => PlainReading(f, p, t);
    case LSubmessage =>
    case _ => BytesReading(f, p.bytes, t);
  }

  lemma FixedRange(n: nat)
    ensures n < U32 ==> n < Pow2(8 * 4)
    ensures n < U64 ==> n < Pow2(8 * 8)
  {
    Pow2Values();
  }

  // ----- one record, and what follows it -----

  /** Running on from the state that a read has reached. */
  ghost function Continue(env: Schema, m: nat, r: Read<State>): Outcome
    requires m < |env|
  {
    match r case Bad => Failed case Got(st, rest) => Run(env, m, st, rest)
  }

  lemma KnownRecord(env: Schema, m: nat, i: nat, st: State, p: Payload, t: seq<byte>)
    requires m < |env| && i < |env[m]|
    ensures Run(env, m, st, Wire(Record(env[m][i].tag, p)) + t) ==
            var entered := EnterFixed(env[m], st, i);
            if entered.None? then Failed
            else
              var st1 := MarkSeen(env[m], entered.value, i);
              Continue(env, m, DecodeField(env, m, i, WireNumber(p), st1, PayloadBytes(p) + t))
  {
    hide DecodeRecord, WireNumber, PayloadBytes, Wire, EnterFixed, MarkSeen, DecodeField;
    var s := Wire(Record(env[m][i].tag, p)) + t;
    KeyRead(env, m, i, p, t);
    RecordOfField(env, m, i, env[m][i].tag * 8 + WireNumber(p), st, PayloadBytes(p) + t);
  }

  lemma KeyRead(env: Schema, m: nat, i: nat, p: Payload, t: seq<byte>)
    requires m < |env| && i < |env[m]|
    ensures ReadKey(Wire(Record(env[m][i].tag, p)) + t) == Got(env[m][i].tag * 8 + WireNumber(p), PayloadBytes(p) + t)
    ensures env[m][i].tag >= 1
    ensures var key := env[m][i].tag * 8 + WireNumber(p);
      key / 8 == env[m][i].tag && key % 8 == WireNumber(p)
  {
    hide PayloadBytes, ReadKey, VarintBytes;
    TableField(env, m, i);
    var tag, w, payload := env[m][i].tag, WireNumber(p), PayloadBytes(p);
    TagRead(tag, w, payload + t);
    assert Wire(Record(tag, p)) + t == TagBytes(w, tag) + (payload + t);
  }

  lemma RecordOfField(env: Schema, m: nat, i: nat, key: nat, st: State, s: seq<byte>)
    requires m < |env| && i < |env[m]| && key / 8 == env[m][i].tag
    ensures DecodeRecord(env, m, key, st, s) ==
            var entered := EnterFixed(env[m], st, i);
            if entered.None? then Bad else DecodeField(env, m, i, key % 8, MarkSeen(env[m], entered.value, i), s)
  {
    hide DecodeField, EnterFixed, MarkSeen, FindTag;
    assert DescriptorOk(m, env[m]);
    FindOwnTag(m, env[m], i);
  }

  /** The required field `i` has been seen, if it is one of the first 64. */
  function Seen(fields: seq<Field>, i: nat, seen: set<nat>): set<nat>
    requires i < |fields|
  {
    if fields[i].htype.Required? && RequiredBefore(fields, i) < 64 then seen + {RequiredBefore(fields, i)} else seen
  }

  /** The state with cell `c` for field `i`. */
  function Storing(fields: seq<Field>, st: State, i: nat, c: Cell): State
    requires i < |fields| && SlotOf(fields, i) < |st.cells|
  {
    State(st.cells[SlotOf(fields, i) := c], st.fixedField, st.fixedSize, Seen(fields, i, st.seen))
  }

  /** A singular field that holds `v`. */
  function Holding(f: Field, v: Value): Cell
    requires !f.htype.Repeated?
  {
    match f.htype
    case Oneof => Union(f.tag, v)
    case Required => if f.atype.Pointer? then Opt(true, v) else Plain(v)
    case Optional => if f.atype.Static? && f.sizeOffset == 0 then Plain(v) else Opt(true, v)
  }

  /** The which_ member of a union is zero or the tag of a field. */
  predicate UnionNamed(fields: seq<Field>, cell: Cell) {
    cell.Union? && cell.which != 0 ==> exists j: nat :: j < |fields| && fields[j].tag == cell.which
  }

  lemma NamedIsOk(fields: seq<Field>, f: Field, cell: Cell)
    requires f in fields
    ensures UnionOk(fields, f, cell) <==> UnionNamed(fields, cell)
  {
    if cell.Which() == f.tag {
      var j: nat :| j < |fields| && fields[j] == f;
    }
  }

  lemma SingularSteps(env: Schema, m: nat, i: nat, st: State)
    requires m < |env| && i < |env[m]| && !env[m][i].htype.Repeated?
    ensures EnterFixed(env[m], st, i) == Some(st)
    ensures MarkSeen(env[m], st, i) == st.(seen := Seen(env[m], i, st.seen))
  {
  }

  /** A scalar record of a singular field: the value replaces what was there; one that does not
      fit is an error.  No other cell changes. */
  lemma LastValueWins(env: Schema, m: nat, i: nat, st: State, p: Payload, t: seq<byte>)
    requires m < |env| && i < |env[m]| && |st.cells| == NumSlots(env[m])
    requires !env[m][i].htype.Repeated? && !env[m][i].ltype.LSubmessage? && Matches(env[m][i], p)
    ensures SlotOf(env[m], i) < |st.cells|
    ensures Run(env, m, st, Wire(Record(env[m][i].tag, p)) + t) ==
            if env[m][i].htype.Oneof? && !UnionNamed(env[m], st.cells[SlotOf(env[m], i)]) then Failed
            else
              var v := Reading(env[m][i], p);
              if v.None? then Failed else Run(env, m, Storing(env[m], st, i, Holding(env[m][i], v.value)), t)
  {
    var f, slot := env[m][i], SlotOf(env[m], i);
    FieldPlace(env, m, i, st);
    KnownRecord(env, m, i, st, p, t);
    SingularSteps(env, m, i, st);
    ReadsPayload(f, p, t);
    NamedIsOk(env[m], f, st.cells[slot]);
    hide Run, EnterFixed, MarkSeen, DecodeScalar, Wire, PayloadBytes, UnionOk, UnionNamed, Reading;
  }

  lemma FieldPlace(env: Schema, m: nat, i: nat, st: State)
    requires m < |env| && i < |env[m]| && |st.cells| == NumSlots(env[m])
    ensures FieldIn(env, m, env[m][i]) && SlotOf(env[m], i) < |st.cells|
  {
    TableField(env, m, i);
    SlotBound(env[m], i);
  }

  // ----- submessages -----

  /** The run goes on with the message that was decoded in field `i`; if none was, it fails. */
  ghost function WithMessage(env: Schema, m: nat, i: nat, st: State, r: Read<seq<Cell>>, t: seq<byte>): Outcome
    requires m < |env| && i < |env[m]| && SlotOf(env[m], i) < |st.cells| && !env[m][i].htype.Repeated?
  {
    if r.Bad? then Failed else Run(env, m, Storing(env[m], st, i, Holding(env[m][i], VMsg(r.v))), t)
  }

  /** A record of a submessage field that is not an array, whose decoder starts from `from`. */
  lemma SubmessageRecord(env: Schema, m: nat, i: nat, st: State, b: seq<byte>, from: seq<Cell>, t: seq<byte>)
    requires m < |env| && i < |env[m]| && |st.cells| == NumSlots(env[m])
    requires !env[m][i].htype.Repeated? && env[m][i].ltype.LSubmessage? && |b| < U32
    requires FieldIn(env, m, env[m][i]) && SlotOf(env[m], i) < |st.cells|
    requires OldContent(env, m, env[m][i], st.cells[SlotOf(env[m], i)]).AsCells() == from
    ensures Run(env, m, st, Wire(Record(env[m][i].tag, Len(b))) + t) ==
            if (env[m][i].atype.Pointer? && env[m][i].dataSize == 0)
               || (env[m][i].htype.Oneof? && !UnionNamed(env[m], st.cells[SlotOf(env[m], i)])) then Failed
            else WithMessage(env, m, i, st, DecodeMsg(env, env[m][i].ptr.id, from, b), t)
  {
    var f, slot := env[m][i], SlotOf(env[m], i);
    hide Run, EnterFixed, MarkSeen, DecodeMsg, Wire, Delimited, UnionOk, UnionNamed, OldContent, FieldIn, DecodeValue;
    KnownRecord(env, m, i, st, Len(b), t);
    SingularSteps(env, m, i, st);
    LenIsDelimited(b);
    BodyDecoded(env, m, f, OldContent(env, m, f, st.cells[slot]), b, t);
    NamedIsOk(env[m], f, st.cells[slot]);
  }

  lemma BodyDecoded(env: Schema, m: nat, f: Field, init: Value, b: seq<byte>, t: seq<byte>)
    requires FieldIn(env, m, f) && f.ltype.LSubmessage? && |b| < U32
    ensures var r := DecodeMsg(env, f.ptr.id, init.AsCells(), b);
      DecodeValue(env, m, f, init, Delimited(b) + t) == if r.Bad? then Bad else Got(VMsg(r.v), t)
  {
    hide DecodeMsg, Delimited, ReadSubstream, FieldIn;
    DelimitedRead(b, t);
  }

  /** A record of a required or optional submessage is decoded into what is there. */
  lemma SubmessageMerges(env: Schema, m: nat, i: nat, st: State, b: seq<byte>, kept: seq<Cell>, t: seq<byte>)
    requires m < |env| && i < |env[m]| && |st.cells| == NumSlots(env[m]) && |b| < U32
    requires env[m][i].htype.Required? || env[m][i].htype.Optional?
    requires env[m][i].ltype.LSubmessage? && env[m][i].atype.Static?
    requires var cell := CellAt(st.cells, SlotOf(env[m], i));
      (cell.Plain? || cell.Opt?) && cell.v == VMsg(kept)
    ensures FieldIn(env, m, env[m][i]) && SlotOf(env[m], i) < |st.cells|
    ensures Run(env, m, st, Wire(Record(env[m][i].tag, Len(b))) + t) ==
            WithMessage(env, m, i, st, DecodeMsg(env, env[m][i].ptr.id, kept, b), t)
  {
    FieldPlace(env, m, i, st);
    hide Run, DecodeMsg, Wire, Storing, FieldIn;
    SubmessageRecord(env, m, i, st, b, kept, t);
  }

  lemma StoredAgain(fields: seq<Field>, st: State, i: nat, c: Cell, d: Cell)
    requires i < |fields| && SlotOf(fields, i) < |st.cells|
    ensures |Storing(fields, st, i, c).cells| == |st.cells|
    ensures CellAt(Storing(fields, st, i, c).cells, SlotOf(fields, i)) == c
    ensures Storing(fields, Storing(fields, st, i, c), i, d) == Storing(fields, st, i, d)
  {
    var slot := SlotOf(fields, i);
    assert st.cells[slot := c][slot := d] == st.cells[slot := d];
  }

  /** Two records of such a field: the second one is decoded into what the first one made of the
      old contents. */
  lemma TwiceMerges(env: Schema, m: nat, i: nat, st: State, x: seq<byte>, y: seq<byte>, kept: seq<Cell>, t: seq<byte>)
    requires m < |env| && i < |env[m]| && |st.cells| == NumSlots(env[m]) && |x| < U32 && |y| < U32
    requires env[m][i].htype.Required? || env[m][i].htype.Optional?
    requires env[m][i].ltype.LSubmessage? && env[m][i].atype.Static?
    requires var cell := CellAt(st.cells, SlotOf(env[m], i));
      (cell.Plain? || cell.Opt?) && cell.v == VMsg(kept)
    ensures FieldIn(env, m, env[m][i]) && SlotOf(env[m], i) < |st.cells|
    ensures Run(env, m, st, Wire(Record(env[m][i].tag, Len(x))) + (Wire(Record(env[m][i].tag, Len(y))) + t)) ==
            var once := DecodeMsg(env, env[m][i].ptr.id, kept, x);
            if once.Bad? then Failed
            else WithMessage(env, m, i, st, DecodeMsg(env, env[m][i].ptr.id, once.v, y), t)
  {
    FieldPlace(env, m, i, st);
    hide Run, DecodeMsg, Wire, Storing, FieldIn, SlotOf, NumSlots;
    var f := env[m][i];
    var second := Wire(Record(f.tag, Len(y))) + t;
    SubmessageMerges(env, m, i, st, x, kept, second);
    var once := DecodeMsg(env, f.ptr.id, kept, x);
    if once.Got? {
      var c := Holding(f, VMsg(once.v));
      var st1 := Storing(env[m], st, i, c);
      StoredAgain(env[m], st, i, c, c);
      SubmessageMerges(env, m, i, st1, y, once.v, t);
      var twice := DecodeMsg(env, f.ptr.id, once.v, y);
      if twice.Got? {
        StoredAgain(env[m], st, i, c, Holding(f, VMsg(twice.v)));
      }
    }
  }

  /** A pointer is given a new submessage each time, whatever it pointed to. */
  lemma PointerStartsOver(env: Schema, m: nat, i: nat, st: State, b: seq<byte>, t: seq<byte>)
    requires m < |env| && i < |env[m]| && |st.cells| == NumSlots(env[m]) && |b| < U32
    requires env[m][i].htype.Required? || env[m][i].htype.Optional?
    requires env[m][i].atype.Pointer? && env[m][i].dataSize > 0
    ensures FieldIn(env, m, env[m][i]) && SlotOf(env[m], i) < |st.cells|
    ensures Run(env, m, st, Wire(Record(env[m][i].tag, Len(b))) + t) ==
            WithMessage(env, m, i, st, Decode(env, env[m][i].ptr.id, b), t)
  {
    FieldPlace(env, m, i, st);
    hide Run, DecodeMsg, Wire, Storing;
    SubmessageRecord(env, m, i, st, b, Defaults(env, env[m][i].ptr.id), t);
  }

  // ----- unions -----

  /** A submessage record of a member that the union does not hold is decoded on its own, and
      then the union holds that. */
  lemma OtherMemberStartsOver(env: Schema, m: nat, i: nat, st: State, b: seq<byte>, t: seq<byte>)
    requires m < |env| && i < |env[m]| && |st.cells| == NumSlots(env[m]) && |b| < U32
    requires env[m][i].htype.Oneof? && env[m][i].ltype.LSubmessage? && env[m][i].atype.Static?
    requires var cell := CellAt(st.cells, SlotOf(env[m], i));
      UnionNamed(env[m], cell) && !(cell.Union? && cell.which == env[m][i].tag)
    ensures FieldIn(env, m, env[m][i]) && SlotOf(env[m], i) < |st.cells|
    ensures Run(env, m, st, Wire(Record(env[m][i].tag, Len(b))) + t) ==
            WithMessage(env, m, i, st, Decode(env, env[m][i].ptr.id, b), t)
  {
    FieldPlace(env, m, i, st);
    hide Run, DecodeMsg, Wire, Storing, UnionNamed;
    SubmessageRecord(env, m, i, st, b, Defaults(env, env[m][i].ptr.id), t);
  }

  /** A submessage record of the member that the union holds is decoded into it. */
  lemma SameMemberMerges(env: Schema, m: nat, i: nat, st: State, b: seq<byte>, kept: seq<Cell>, t: seq<byte>)
    requires m < |env| && i < |env[m]| && |st.cells| == NumSlots(env[m]) && |b| < U32
    requires env[m][i].htype.Oneof? && env[m][i].ltype.LSubmessage? && env[m][i].atype.Static?
    requires CellAt(st.cells, SlotOf(env[m], i)) == Union(env[m][i].tag, VMsg(kept))
    ensures FieldIn(env, m, env[m][i]) && SlotOf(env[m], i) < |st.cells|
    ensures Run(env, m, st, Wire(Record(env[m][i].tag, Len(b))) + t) ==
            WithMessage(env, m, i, st, DecodeMsg(env, env[m][i].ptr.id, kept, b), t)
  {
    FieldPlace(env, m, i, st);
    assert UnionNamed(env[m], Union(env[m][i].tag, VMsg(kept)));
    hide Run, DecodeMsg, Wire, Storing, UnionNamed;
    SubmessageRecord(env, m, i, st, b, kept, t);
  }

  // ----- arrays -----

  /** The entry that a payload makes; a submessage is decoded on its own. */
  ghost function EntryOf(env: Schema, m: nat, f: Field, p: Payload): Option<Value>
    requires FieldIn(env, m, f) && Matches(f, p)
  {
    if f.ltype.LSubmessage? then
      var r := Decode(env, f.ptr.id, p.bytes);
      if r.Bad? then None else Some(VMsg(r.v))
    else Reading(f, p)
  }

  lemma EntryDecoded(env: Schema, m: nat, f: Field, cell: Cell, p: Payload, t: seq<byte>)
    requires FieldIn(env, m, f) && Matches(f, p) && f.htype.Repeated?
    ensures var v := EntryOf(env, m, f, p);
      DecodeValue(env, m, f, OldContent(env, m, f, cell), PayloadBytes(p) + t) ==
      if v.None? then Bad else Got(v.value, t)
  {
    hide DecodeMsg, Delimited, PayloadBytes, DecodeScalar, Reading;
    if f.ltype.LSubmessage? {
      LenIsDelimited(p.bytes);
      BodyDecoded(env, m, f, OldContent(env, m, f, cell), p.bytes, t);
    } else {
      ReadsPayload(f, p, t);
    }
  }

  lemma NotPacked(f: Field, p: Payload)
    requires Matches(f, p)
    ensures !(WireNumber(p) == WT_STRING && f.ltype.Packable())
  {
  }

  /** The state after an entry `v`, if it could be read and the array has a place for it. */
  ghost function EntryState(fields: seq<Field>, i: nat, st: State, v: Option<Value>): Option<State>
    requires i < |fields|
  {
    var f, slot := fields[i], SlotOf(fields, i);
    var items := CellAt(st.cells, slot).Items();
    var count := CountOf(f, st, items);
    if v.None? || count >= Capacity(f) || (f.atype.Pointer? && f.dataSize == 0) then None
    else Some(PutArray(f, st, slot, PutItem(items, count, v.value), count + 1))
  }

  lemma FieldTakesEntry(env: Schema, m: nat, i: nat, st: State, p: Payload, t: seq<byte>)
    requires m < |env| && i < |env[m]| && FieldIn(env, m, env[m][i])
    requires env[m][i].htype.Repeated? && Matches(env[m][i], p)
    ensures var st' := EntryState(env[m], i, st, EntryOf(env, m, env[m][i], p));
      DecodeField(env, m, i, WireNumber(p), st, PayloadBytes(p) + t) == if st'.None? then Bad else Got(st'.value, t)
  {
    hide DecodeValue, OldContent, FieldIn, EntryOf, PutArray, PutItem, PayloadBytes, Capacity, SlotOf, Matches,
         DecodePackedField, CountOf;
    EntryDecoded(env, m, env[m][i], CellAt(st.cells, SlotOf(env[m], i)), p, t);
    NotPacked(env[m][i], p);
  }

  /** A record of one entry: the entry goes to its place if the array has one. */
  lemma EntryRecord(env: Schema, m: nat, i: nat, st: State, p: Payload, t: seq<byte>)
    requires m < |env| && i < |env[m]| && FieldIn(env, m, env[m][i])
    requires env[m][i].htype.Repeated? && Matches(env[m][i], p)
    ensures Run(env, m, st, Wire(Record(env[m][i].tag, p)) + t) ==
            var entered := EnterFixed(env[m], st, i);
            if entered.None? then Failed
            else
              var st' := EntryState(env[m], i, entered.value, EntryOf(env, m, env[m][i], p));
              if st'.None? then Failed else Run(env, m, st'.value, t)
  {
    hide Run, Wire, DecodeField, EnterFixed, EntryState, EntryOf, FieldIn, Matches, PayloadBytes, WireNumber;
    KnownRecord(env, m, i, st, p, t);
    if EnterFixed(env[m], st, i).Some? {
      FieldTakesEntry(env, m, i, EnterFixed(env[m], st, i).value, p, t);
    }
  }

  /** An array with a _count member grows by the entry, up to its size; one behind a pointer as
      far as the count goes. */
  lemma ArrayGrows(env: Schema, m: nat, i: nat, st: State, items: seq<Value>, p: Payload, t: seq<byte>)
    requires m < |env| && i < |env[m]| && |st.cells| == NumSlots(env[m])
    requires env[m][i].htype.Repeated? && env[m][i].sizeOffset != 0 && Matches(env[m][i], p)
    requires env[m][i].atype.Pointer? ==> env[m][i].dataSize > 0
    requires CellAt(st.cells, SlotOf(env[m], i)) == Arr(items)
    ensures FieldIn(env, m, env[m][i]) && SlotOf(env[m], i) < |st.cells|
    ensures Run(env, m, st, Wire(Record(env[m][i].tag, p)) + t) ==
            var v := EntryOf(env, m, env[m][i], p);
            if |items| >= (if env[m][i].atype.Static? then env[m][i].arraySize else 0xFFFF_FFFF) || v.None? then Failed
            else Run(env, m, st.(cells := st.cells[SlotOf(env[m], i) := Arr(items + [v.value])]), t)
  {
    FieldPlace(env, m, i, st);
    assert env[m][i].atype.Static? || env[m][i].atype.Pointer?;
    hide Run, Wire, EntryOf, FieldIn, Matches;
    EntryRecord(env, m, i, st, p, t);
  }

  /** The entries of a fixed-count array that have been read since its first record. */
  function Filled(st: State, i: nat): nat {
    if st.fixedField == Some(i) then st.fixedSize else 0
  }

  /** Another fixed-count array was begun and not filled to the end. */
  predicate OtherUnfinished(fields: seq<Field>, st: State, i: nat) {
    && st.fixedField.Some? && st.fixedField.value != i && st.fixedField.value < |fields|
    && st.fixedSize != fields[st.fixedField.value].arraySize
  }

  lemma EntersFixed(env: Schema, m: nat, i: nat, st: State)
    requires m < |env| && i < |env[m]| && env[m][i].FixedCount()
    ensures EnterFixed(env[m], st, i) ==
            if OtherUnfinished(env[m], st, i) then None
            else Some(State(st.cells, Some(i), Filled(st, i), st.seen))
  {
  }

  /** A fixed-count array is filled from the start when its first record comes; it is an error if
      another one was not filled to the end by then, and so is an entry too many. */
  ghost function NextOfFixed(fields: seq<Field>, i: nat, st: State, items: seq<Value>, v: Option<Value>): Option<State>
    requires i < |fields| && SlotOf(fields, i) < |st.cells|
  {
    var k := Filled(st, i);
    if OtherUnfinished(fields, st, i) || k >= fields[i].arraySize || v.None? then None
    else
      var entries := if k < |items| then items[k := v.value] else items + [v.value];
      Some(State(st.cells[SlotOf(fields, i) := Arr(entries)], Some(i), k + 1, st.seen))
  }

  lemma FixedEntryState(fields: seq<Field>, i: nat, st: State, items: seq<Value>, v: Option<Value>)
    requires i < |fields| && fields[i].FixedCount() && fields[i].atype.Static?
    requires SlotOf(fields, i) < |st.cells| && st.cells[SlotOf(fields, i)] == Arr(items)
    requires !OtherUnfinished(fields, st, i)
    ensures EntryState(fields, i, State(st.cells, Some(i), Filled(st, i), st.seen), v) == NextOfFixed(fields, i, st, items, v)
  {
  }

  lemma FixedArrayFills(env: Schema, m: nat, i: nat, st: State, items: seq<Value>, p: Payload, t: seq<byte>)
    requires m < |env| && i < |env[m]| && |st.cells| == NumSlots(env[m])
    requires env[m][i].htype.Repeated? && env[m][i].sizeOffset == 0 && Matches(env[m][i], p)
    requires CellAt(st.cells, SlotOf(env[m], i)) == Arr(items)
    ensures FieldIn(env, m, env[m][i]) && SlotOf(env[m], i) < |st.cells|
    ensures Run(env, m, st, Wire(Record(env[m][i].tag, p)) + t) ==
            var next := NextOfFixed(env[m], i, st, items, EntryOf(env, m, env[m][i], p));
            if next.None? then Failed else Run(env, m, next.value, t)
  {
    FieldPlace(env, m, i, st);
    assert env[m][i].atype.Static?;
    hide Run, Wire, EntryOf, FieldIn, Matches, EnterFixed, EntryState, OtherUnfinished, SlotOf, NumSlots;
    EntryRecord(env, m, i, st, p, t);
    EntersFixed(env, m, i, st);
    if !OtherUnfinished(env[m], st, i) {
      FixedEntryState(env[m], i, st, items, EntryOf(env, m, env[m][i], p));
    }
  }

  // ----- packed arrays -----

  function Concat(ps: seq<Payload>): seq<byte> {
    if ps == [] then [] else PayloadBytes(ps[0]) + Concat(ps[1..])
  }

  /** One record for every payload. */
  function Separate(tag: nat, ps: seq<Payload>): seq<byte> {
    if ps == [] then [] else Wire(Record(tag, ps[0])) + Separate(tag, ps[1..])
  }

  ghost predicate AllMatch(f: Field, ps: seq<Payload>) {
    forall k :: 0 <= k < |ps| ==> Matches(f, ps[k])
  }

  /** Field `i` is an array that is being filled. */
  ghost predicate Filling(env: Schema, m: nat, i: nat, st: State)
    requires m < |env| && i < |env[m]|
  {
    && env[m][i].htype.Repeated? && env[m][i].atype.Static?
    && SlotOf(env[m], i) < |st.cells| && st.cells[SlotOf(env[m], i)].Arr?
    && (env[m][i].FixedCount() ==> st.fixedField == Some(i))
  }

  /** The state after one entry for each payload. */
  ghost function Fill(fields: seq<Field>, i: nat, st: State, ps: seq<Payload>): Option<State>
    requires i < |fields| && AllMatch(fields[i], ps)
    decreases |ps|
  {
    if ps == [] then Some(st)
    else
      var st' := EntryState(fields, i, st, Reading(fields[i], ps[0]));
      if st'.None? then None else Fill(fields, i, st'.value, ps[1..])
  }

  lemma FillingStep(env: Schema, m: nat, i: nat, st: State, v: Option<Value>)
    requires m < |env| && i < |env[m]| && Filling(env, m, i, st)
    ensures EnterFixed(env[m], st, i) == Some(st)
    ensures var st' := EntryState(env[m], i, st, v);
      st'.Some? ==> Filling(env, m, i, st'.value)
  {
  }

  lemma {:induction false} SeparateFills(env: Schema, m: nat, i: nat, st: State, ps: seq<Payload>, t: seq<byte>)
    requires m < |env| && i < |env[m]| && FieldIn(env, m, env[m][i])
    requires Filling(env, m, i, st) && AllMatch(env[m][i], ps)
    requires env[m][i].htype.Repeated? && env[m][i].ltype.Packable()
    ensures Run(env, m, st, Separate(env[m][i].tag, ps) + t) ==
            var st' := Fill(env[m], i, st, ps);
            if st'.None? then Failed else Run(env, m, st'.value, t)
    decreases |ps|
  {
    hide Run, Wire, FieldIn, Filling, EntryState, EnterFixed, Reading;
    if ps == [] {
      assert Separate(env[m][i].tag, ps) + t == t;
    } else {
      var f := env[m][i];
      assert EntryOf(env, m, f, ps[0]) == Reading(f, ps[0]);
      EntryRecord(env, m, i, st, ps[0], Separate(f.tag, ps[1..]) + t);
      assert Separate(f.tag, ps) + t == Wire(Record(f.tag, ps[0])) + (Separate(f.tag, ps[1..]) + t);
      FillingStep(env, m, i, st, Reading(f, ps[0]));
      var st' := EntryState(env[m], i, st, Reading(f, ps[0]));
      if st'.Some? {
        SeparateFills(env, m, i, st'.value, ps[1..], t);
      }
    }
  }

  /** What the loop over packed data leaves. */
  ghost function PackedState(fields: seq<Field>, i: nat, st: State, s: seq<byte>): Option<State>
    requires i < |fields|
  {
    var f, slot := fields[i], SlotOf(fields, i);
    var items := CellAt(st.cells, slot).Items();
    var r := DecodePacked(f, items, CountOf(f, st, items), s);
    if r.PackedBad? then None else Some(PutArray(f, st, slot, r.items, r.count))
  }

  lemma PackedEnd(env: Schema, m: nat, i: nat, st: State)
    requires m < |env| && i < |env[m]| && Filling(env, m, i, st)
    ensures PackedState(env[m], i, st, []) == Some(st)
  {
    var slot := SlotOf(env[m], i);
    assert st.cells[slot := st.cells[slot]] == st.cells;
  }

  /** One turn of the loop over packed data. */
  lemma PackedTurn(f: Field, items: seq<Value>, count: nat, p: Payload, later: seq<byte>)
    requires Matches(f, p) && f.ltype.Packable() && f.dataSize <= PB_SIZE_MAX
    ensures DecodePacked(f, items, count, PayloadBytes(p) + later) ==
            var v := Reading(f, p);
            if count >= f.arraySize || v.None? then PackedBad
            else DecodePacked(f, PutItem(items, count, v.value), count + 1, later)
  {
    hide PayloadBytes, DecodeScalar, Reading;
    PayloadNotEmpty(p);
    ReadsPayload(f, p, later);
  }

  lemma AfterPut(f: Field, st: State, slot: nat, items: seq<Value>, n: nat, items': seq<Value>, n': nat)
    requires slot < |st.cells| && (f.FixedCount() || |items| == n)
    ensures var st' := PutArray(f, st, slot, items, n);
      && CellAt(st'.cells, slot).Items() == items && CountOf(f, st', items) == n
      && PutArray(f, st', slot, items', n') == PutArray(f, st, slot, items', n')
  {
    assert st.cells[slot := Arr(items)][slot := Arr(items')] == st.cells[slot := Arr(items')];
  }

  lemma PackedStep(env: Schema, m: nat, i: nat, st: State, p: Payload, later: seq<byte>)
    requires m < |env| && i < |env[m]| && env[m][i].dataSize <= PB_SIZE_MAX
    requires Filling(env, m, i, st) && Matches(env[m][i], p) && env[m][i].ltype.Packable()
    ensures PackedState(env[m], i, st, PayloadBytes(p) + later) ==
            var st' := EntryState(env[m], i, st, Reading(env[m][i], p));
            if st'.None? then None else PackedState(env[m], i, st'.value, later)
  {
    hide PayloadBytes, SlotOf, Reading, DecodePacked, PutArray;
    var f, slot := env[m][i], SlotOf(env[m], i);
    var items := CellAt(st.cells, slot).Items();
    var count := CountOf(f, st, items);
    PackedTurn(f, items, count, p, later);
    var v := Reading(f, p);
    if v.Some? && count < f.arraySize {
      var items' := PutItem(items, count, v.value);
      var r := DecodePacked(f, items', count + 1, later);
      if r.PackedOk? {
        AfterPut(f, st, slot, items', count + 1, r.items, r.count);
      } else {
        AfterPut(f, st, slot, items', count + 1, [], 0);
      }
    }
  }

  lemma PayloadNotEmpty(p: Payload)
    ensures PayloadBytes(p) != []
  {
  }

  lemma {:induction false} PackedFills(env: Schema, m: nat, i: nat, st: State, ps: seq<Payload>)
    requires m < |env| && i < |env[m]| && FieldIn(env, m, env[m][i])
    requires Filling(env, m, i, st) && AllMatch(env[m][i], ps) && env[m][i].ltype.Packable()
    ensures PackedState(env[m], i, st, Concat(ps)) == Fill(env[m], i, st, ps)
    decreases |ps|
  {
    assert env[m][i].dataSize <= PB_SIZE_MAX;
    hide FieldIn, Filling, EntryState, Reading, PackedState, PayloadBytes;
    if ps == [] {
      PackedEnd(env, m, i, st);
    } else {
      var v := Reading(env[m][i], ps[0]);
      PackedStep(env, m, i, st, ps[0], Concat(ps[1..]));
      FillingStep(env, m, i, st, v);
      if EntryState(env[m], i, st, v).Some? {
        PackedFills(env, m, i, EntryState(env[m], i, st, v).value, ps[1..]);
      }
    }
  }

  lemma PackedRecord(env: Schema, m: nat, i: nat, st: State, b: seq<byte>, t: seq<byte>)
    requires m < |env| && i < |env[m]| && |b| < U32
    requires env[m][i].htype.Repeated? && env[m][i].ltype.Packable()
    ensures Run(env, m, st, Wire(Record(env[m][i].tag, Len(b))) + t) ==
            var entered := EnterFixed(env[m], st, i);
            if entered.None? then Failed
            else
              var st' := PackedState(env[m], i, entered.value, b);
              if st'.None? then Failed else Run(env, m, st'.value, t)
  {
    hide Run, Wire, EnterFixed, Delimited, SlotOf, CountOf, PutArray, DecodePacked;
    KnownRecord(env, m, i, st, Len(b), t);
    LenIsDelimited(b);
    DelimitedRead(b, t);
    hide ReadSubstream;
  }

  lemma EnteredFilling(env: Schema, m: nat, i: nat, st: State)
    requires m < |env| && i < |env[m]| && |st.cells| == NumSlots(env[m])
    requires env[m][i].htype.Repeated? && env[m][i].ltype.Packable() && CellAt(st.cells, SlotOf(env[m], i)).Arr?
    ensures FieldIn(env, m, env[m][i])
    ensures var entered := EnterFixed(env[m], st, i);
      entered.Some? ==> Filling(env, m, i, entered.value)
  {
    FieldPlace(env, m, i, st);
  }

  /** The first of the records in their own right enters the array like the packed one. */
  lemma SeparateEnters(env: Schema, m: nat, i: nat, st: State, ps: seq<Payload>, t: seq<byte>)
    requires m < |env| && i < |env[m]| && FieldIn(env, m, env[m][i])
    requires env[m][i].htype.Repeated? && ps != [] && AllMatch(env[m][i], ps)
    ensures var entered := EnterFixed(env[m], st, i);
      Run(env, m, st, Separate(env[m][i].tag, ps) + t) ==
      if entered.None? then Failed else Run(env, m, entered.value, Separate(env[m][i].tag, ps) + t)
  {
    hide Run, Wire, FieldIn, EntryState, EntryOf, Matches;
    var f := env[m][i];
    var later := Separate(f.tag, ps[1..]) + t;
    assert Separate(f.tag, ps) + t == Wire(Record(f.tag, ps[0])) + later;
    EntryRecord(env, m, i, st, ps[0], later);
    if EnterFixed(env[m], st, i).Some? {
      EntryRecord(env, m, i, EnterFixed(env[m], st, i).value, ps[0], later);
    }
  }

  /** A packed record does what the same entries do in records of their own. */
  lemma PackedIsUnpacked(env: Schema, m: nat, i: nat, st: State, ps: seq<Payload>, t: seq<byte>)
    requires m < |env| && i < |env[m]| && |st.cells| == NumSlots(env[m])
    requires env[m][i].htype.Repeated? && env[m][i].ltype.Packable() && CellAt(st.cells, SlotOf(env[m], i)).Arr?
    requires ps != [] && AllMatch(env[m][i], ps) && |Concat(ps)| < U32
    ensures Run(env, m, st, Wire(Record(env[m][i].tag, Len(Concat(ps)))) + t) ==
            Run(env, m, st, Separate(env[m][i].tag, ps) + t)
  {
    hide Run, Wire, EnterFixed, Filling, PackedState, Fill, Separate, Concat, FieldIn, AllMatch, SlotOf, NumSlots;
    EnteredFilling(env, m, i, st);
    PackedRecord(env, m, i, st, Concat(ps), t);
    SeparateEnters(env, m, i, st, ps, t);
    var entered := EnterFixed(env[m], st, i);
    if entered.Some? {
      PackedFills(env, m, i, entered.value, ps);
      SeparateFills(env, m, i, entered.value, ps, t);
    }
  }

  // ----- the end -----

  /** A zero key ends the message, whatever follows it. */
  lemma ZeroKeyStops(env: Schema, m: nat, st: State, t: seq<byte>)
    requires m < |env|
    ensures Run(env, m, st, [0] + t) == Stopped(st, t)
  {
    assert ([0] + t)[1..] == t;
  }
}
