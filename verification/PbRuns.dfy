/**
  Decoding reads records one after another: a decode that succeeds on some bytes
  does the same when more bytes follow, so runs of the loop compose.  From this
  come three promises of the decoder: concatenated messages are merged, unknown
  fields are transparent, and the required-field check means what it says.
*/
module PbRuns {
  import opened Bits
  import opened Collections
  import opened PbWire
  import PbVarint32
  import opened PbTypes
  import opened PbEncodeSpec
  import opened PbDecodeSpec

  // ----- every reader is stable under more input -----

  lemma DecodeScalarAppend(f: Field, s: seq<byte>, t: seq<byte>)
    ensures Extends(DecodeScalar(f, s), DecodeScalar(f, s + t), t)
  {
    match f.ltype
    case LVarint => ReadVarintAppend(s, t);
    case LUvarint => ReadVarintAppend(s, t);
    case LSvarint => ReadVarintAppend(s, t);
    case LFixed32 => ReadBytesAppend(s, 4, t);
    case LFixed64 => ReadBytesAppend(s, 8, t);
    case LSubmessage =>
    case _ => DelimitedAppend(f, s, t);
  }

  lemma DelimitedAppend(f: Field, s: seq<byte>, t: seq<byte>)
    ensures Extends(DecodeBool(s), DecodeBool(s + t), t)
    ensures Extends(DecodeBytes(f, s), DecodeBytes(f, s + t), t)
    ensures Extends(DecodeString(f, s), DecodeString(f, s + t), t)
    ensures Extends(DecodeInline(f, s), DecodeInline(f, s + t), t)
  {
    ReadVarint32Append(s, t);
    if ReadVarint32(s).Got? {
      ReadBytesAppend(ReadVarint32(s).rest, ReadVarint32(s).v, t);
    }
  }

  lemma DecodeValueAppend(env: Schema, m: nat, f: Field, init: Value, s: seq<byte>, t: seq<byte>)
    requires FieldIn(env, m, f)
    ensures Extends(DecodeValue(env, m, f, init, s), DecodeValue(env, m, f, init, s + t), t)
  {
    DecodeScalarAppend(f, s, t);
    ReadSubstreamAppend(s, t);
  }

  lemma DecodePackedFieldAppend(f: Field, st: State, slot: nat, s: seq<byte>, t: seq<byte>)
    ensures Extends(DecodePackedField(f, st, slot, s), DecodePackedField(f, st, slot, s + t), t)
  {
    ReadSubstreamAppend(s, t);
  }

  lemma DecodeFieldAppend(env: Schema, m: nat, i: nat, wireType: nat, st: State, s: seq<byte>, t: seq<byte>)
    requires m < |env| && i < |env[m]|
    ensures Extends(DecodeField(env, m, i, wireType, st, s), DecodeField(env, m, i, wireType, st, s + t), t)
  {
    var f := env[m][i];
    TableField(env, m, i);
    var slot := SlotOf(env[m], i);
    DecodePackedFieldAppend(f, st, slot, s, t);
    DecodeValueAppend(env, m, f, OldContent(env, m, f, CellAt(st.cells, slot)), s, t);
  }

  lemma DecodeRecordAppend(env: Schema, m: nat, key: nat, st: State, s: seq<byte>, t: seq<byte>)
    requires m < |env|
    ensures Extends(DecodeRecord(env, m, key, st, s), DecodeRecord(env, m, key, st, s + t), t)
  {
    hide DecodeField;
    match FindTag(env[m], key / 8)
    case None =>
      ReadVarint32Append(s, t);
      SkipFieldAppend(key % 8, s, t);
    case Some(i) =>
      match EnterFixed(env[m], st, i) {
        case None =>
        case Some(st1) => DecodeFieldAppend(env, m, i, key % 8, MarkSeen(env[m], st1, i), s, t);
      }
  }

  // ----- composing runs -----

  /** One record and the rest of the stream. */
  lemma RunStep(env: Schema, m: nat, st: State, s: seq<byte>)
    requires m < |env|
    requires ReadKey(s).Got? && ReadKey(s).v != 0
    requires DecodeRecord(env, m, ReadKey(s).v, st, ReadKey(s).rest).Got?
    ensures var r := DecodeRecord(env, m, ReadKey(s).v, st, ReadKey(s).rest);
      Run(env, m, st, s) == Run(env, m, r.v, r.rest)
  {
  }

  /** A run that reaches the end of `a` goes on into whatever follows `a`; one that stops at
      a zero tag stops there whatever follows. */
  lemma {:induction false} RunAppend(env: Schema, m: nat, st: State, a: seq<byte>, b: seq<byte>)
    requires m < |env|
    ensures match Run(env, m, st, a)
      case Failed => true
      case Ended(st') => Run(env, m, st, a + b) == Run(env, m, st', b)
      case Stopped(st', rest) => Run(env, m, st, a + b) == Stopped(st', rest + b)
    decreases |a|
  {
    hide DecodeRecord, ReadKey;
    if a == [] {
      assert a + b == b;
    } else if ReadKey(a).Got? {
      ReadKeyAppend(a, b);
      var key, rest := ReadKey(a).v, ReadKey(a).rest;
      if key != 0 {
        var r := DecodeRecord(env, m, key, st, rest);
        DecodeRecordAppend(env, m, key, st, rest, b);
        if r.Got? {
          RunAppend(env, m, r.v, r.rest, b);
        }
      }
    }
  }

  lemma ReadKeyAppend(s: seq<byte>, t: seq<byte>)
    ensures Extends(ReadKey(s), ReadKey(s + t), t)
  {
    ReadVarint32Append(s, t);
  }

  // ----- unknown fields -----

  /** A record of a field the descriptor does not have: its key and a payload of the right
      shape for its wire type. */
  ghost predicate UnknownRecord(fields: seq<Field>, u: seq<byte>) {
    && ReadKey(u).Got?
    && ReadKey(u).v / 8 != 0
    && FindTag(fields, ReadKey(u).v / 8).None?
    && SkipField(ReadKey(u).v % 8, ReadKey(u).rest) == Got((), [])
  }

  /** An unknown record between two records changes nothing: not the message, not the
      bookkeeping, not the outcome. */
  lemma UnknownFieldIsTransparent(env: Schema, m: nat, st: State, a: seq<byte>, u: seq<byte>, b: seq<byte>)
    requires m < |env|
    requires Run(env, m, st, a).Ended?
    requires UnknownRecord(env[m], u)
    ensures Run(env, m, st, a + u + b) == Run(env, m, st, a + b)
    ensures st == Start(st.cells) ==> DecodeMsg(env, m, st.cells, a + u + b) == DecodeMsg(env, m, st.cells, a + b)
  {
    var st' := Run(env, m, st, a).st;
    assert Run(env, m, st, a + b) == Run(env, m, st', b) by { RunAppend(env, m, st, a, b); }
    assert Run(env, m, st, a + u) == Run(env, m, st', u) by { RunAppend(env, m, st, a, u); }
    assert Run(env, m, st', u) == Ended(st') by { RunUnknown(env, m, st', u); }
    RunAppend(env, m, st, a + u, b);
  }

  lemma RunUnknown(env: Schema, m: nat, st: State, u: seq<byte>)
    requires m < |env| && UnknownRecord(env[m], u)
    ensures Run(env, m, st, u) == Ended(st)
  {
    assert DecodeRecord(env, m, ReadKey(u).v, st, ReadKey(u).rest) == Got(st, []);
    RunStep(env, m, st, u);
  }

  /** Records with wire type 0, 1, 2 and 5 are well formed; 3, 4, 6 and 7 are not. */
  lemma UnknownRecordShapes(fields: seq<Field>, tag: nat, wireType: nat, payload: seq<byte>)
    requires 1 <= tag < 0x2000_0000 && wireType < 8 && FindTag(fields, tag).None?
    ensures UnknownRecord(fields, TagBytes(wireType, tag) + payload) <==>
            || (wireType == 0 && VarintLen(payload) == |payload|)
            || (wireType == 1 && |payload| == 8)
            || (wireType == 2 && ReadVarint32(payload).Got? && ReadVarint32(payload).v == |ReadVarint32(payload).rest|)
            || (wireType == 5 && |payload| == 4)
  {
    hide ReadVarint32, VarintLen, VarintBytes;
    TagRead(tag, wireType, payload);
    var n := VarintLen(payload);
    if n <= |payload| {
      assert payload[n..] == [] <==> n == |payload|;
    }
    if wireType == WT_STRING && ReadVarint32(payload).Got? {
      var size, rest := ReadVarint32(payload).v, ReadVarint32(payload).rest;
      if size <= |rest| {
        assert rest[size..] == [] <==> size == |rest|;
      }
    }
  }

  /** The decoder reads back the key the encoder wrote. */
  lemma TagRead(tag: nat, wireType: nat, t: seq<byte>)
    requires 1 <= tag < 0x2000_0000 && wireType < 8
    ensures ReadKey(TagBytes(wireType, tag) + t) == Got(tag * 8 + wireType, t)
    ensures (tag * 8 + wireType) / 8 == tag && (tag * 8 + wireType) % 8 == wireType
  {
    PbVarint32.Varint32Ranges(tag * 8 + wireType, t);
  }

  // ----- descriptors that reach themselves -----

  lemma DelimitedRead(b: seq<byte>, t: seq<byte>)
    requires |b| < U32
    ensures ReadVarint32(Delimited(b) + t) == Got(|b|, b + t)
    ensures ReadSubstream(Delimited(b) + t) == Got(b, t)
    ensures ReadBytes(b + t, |b|) == Got(b, t)
  {
    assert Delimited(b) + t == VarintBytes(|b|) + (b + t);
    PbVarint32.Varint32Ranges(|b|, b + t);
    assert (b + t)[..|b|] == b && (b + t)[|b|..] == t;
  }

  /** A message whose only field is an array of such messages, as document values contain lists
      of values. */
  const NESTED: seq<seq<Field>> := [[Field(1, LSubmessage, Repeated, Pointer, 0, 8, 16, 0, SubmsgPtr(0))]]

  /** The message nested `n` deep. */
  function Levels(n: nat): seq<Cell> {
    if n == 0 then [Arr([])] else [Arr([VMsg(Levels(n - 1))])]
  }

  /** Its encoding: every level takes bytes of its own. */
  function LevelBytes(n: nat): (s: seq<byte>)
    ensures |s| >= 2 * n
  {
    if n == 0 then [] else [10] + Delimited(LevelBytes(n - 1))
  }

  /** The decoder follows such a descriptor to any depth. */
  lemma {:induction false} DecodesNested(n: nat)
    requires |LevelBytes(n)| < U32
    ensures SchemaOk(NESTED)
    ensures Decode(NESTED, 0, LevelBytes(n)) == Got(Levels(n), [])
  {
    var env: Schema := NESTED;
    var start := Start([Arr([])]);
    assert Defaults(env, 0) == [Arr([])];
    if n > 0 {
      var body := LevelBytes(n - 1);
      DecodesNested(n - 1);
      NestedRecord(env, body, Levels(n - 1));
      var st := Start(Levels(n));
      assert LevelBytes(n)[1..] == Delimited(body);
      assert ReadKey(LevelBytes(n)) == Got(10, Delimited(body));
      hide DecodeRecord;
      RunStep(env, 0, start, LevelBytes(n));
      assert Run(env, 0, st, []) == Ended(st);
    }
  }

  /** One record of the array. */
  lemma NestedRecord(env: Schema, body: seq<byte>, cells: seq<Cell>)
    requires env == NESTED && |body| < U32 && Decode(env, 0, body) == Got(cells, [])
    ensures DecodeRecord(env, 0, 10, Start([Arr([])]), Delimited(body)) == Got(Start([Arr([VMsg(cells)])]), [])
  {
    hide Run, Delimited, ReadSubstream, DecodeMsg, Defaults;
    var f := env[0][0];
    var start := Start([Arr([])]);
    DelimitedRead(body, []);
    assert Delimited(body) + [] == Delimited(body);
    assert FindTag(env[0], 1) == Some(0) && SlotOf(env[0], 0) == 0;
    assert EnterFixed(env[0], start, 0) == Some(start) && MarkSeen(env[0], start, 0) == start;
    assert OldContent(env, 0, f, Arr([])) == VMsg(Defaults(env, 0));
    assert DecodeValue(env, 0, f, VMsg(Defaults(env, 0)), Delimited(body)) == Got(VMsg(cells), []);
    assert PutItem([], 0, VMsg(cells)) == [VMsg(cells)];
    assert SetCell(start.cells, 0, Arr([VMsg(cells)])) == [Arr([VMsg(cells)])];
  }
}
