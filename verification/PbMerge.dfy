/**
  `pb_decode_noinit` merges: decoding one message after another into the same
  struct is decoding their concatenation.  The one exception is the counter of
  fixed-count arrays, which the concatenation does not reset in between; the
  theorem says exactly when that matters.
*/
module PbMerge {
  import opened Bits
  import opened Collections
  import opened PbWire
  import opened PbTypes
  import opened PbDecodeSpec
  import opened PbRuns

  /** `st` with more required fields already seen. */
  function WithSeen(st: State, extra: set<nat>): State {
    st.(seen := st.seen + extra)
  }

  /** `st` with another fixed-count bookkeeping. */
  function WithFixed(st: State, fixedField: Option<nat>, fixedSize: nat): State {
    st.(fixedField := fixedField, fixedSize := fixedSize)
  }

  function ReadWithSeen(r: Read<State>, extra: set<nat>): Read<State> {
    match r case Bad => Bad case Got(st, rest) => Got(WithSeen(st, extra), rest)
  }

  function ReadWithFixed(r: Read<State>, fixedField: Option<nat>, fixedSize: nat): Read<State> {
    match r case Bad => Bad case Got(st, rest) => Got(WithFixed(st, fixedField, fixedSize), rest)
  }

  function OutcomeWithSeen(r: Outcome, extra: set<nat>): Outcome {
    match r
    case Failed => Failed
    case Ended(st) => Ended(WithSeen(st, extra))
    case Stopped(st, rest) => Stopped(WithSeen(st, extra), rest)
  }

  // ----- the seen set does not influence decoding -----

  lemma FieldIgnoresSeen(env: Schema, m: nat, i: nat, wireType: nat, st: State, s: seq<byte>, extra: set<nat>)
    requires m < |env| && i < |env[m]|
    ensures DecodeField(env, m, i, wireType, WithSeen(st, extra), s) ==
            ReadWithSeen(DecodeField(env, m, i, wireType, st, s), extra)
  {
    hide DecodeValue, DecodePacked, ReadSubstream, SlotOf, OldContent, UnionOk, StoreValue;
    TableField(env, m, i);
  }

  lemma RecordIgnoresSeen(env: Schema, m: nat, key: nat, st: State, s: seq<byte>, extra: set<nat>)
    requires m < |env|
    ensures DecodeRecord(env, m, key, WithSeen(st, extra), s) == ReadWithSeen(DecodeRecord(env, m, key, st, s), extra)
  {
    hide DecodeField;
    match FindTag(env[m], key / 8)
    case None =>
    case Some(i) =>
      match EnterFixed(env[m], st, i) {
        case None =>
        case Some(st1) =>
          FieldIgnoresSeen(env, m, i, key % 8, MarkSeen(env[m], st1, i), s, extra);
          assert WithSeen(MarkSeen(env[m], st1, i), extra) == MarkSeen(env[m], WithSeen(st1, extra), i);
      }
  }

  lemma {:induction false} RunIgnoresSeen(env: Schema, m: nat, st: State, s: seq<byte>, extra: set<nat>)
    requires m < |env|
    ensures Run(env, m, WithSeen(st, extra), s) == OutcomeWithSeen(Run(env, m, st, s), extra)
    decreases |s|
  {
    hide DecodeRecord, ReadKey;
    if s != [] && ReadKey(s).Got? && ReadKey(s).v != 0 {
      var key, rest := ReadKey(s).v, ReadKey(s).rest;
      RecordIgnoresSeen(env, m, key, st, rest, extra);
      var r := DecodeRecord(env, m, key, st, rest);
      if r.Got? {
        RunIgnoresSeen(env, m, r.v, r.rest, extra);
      }
    }
  }

  // ----- records of other fields do not touch the fixed-count bookkeeping -----

  /** The field a record belongs to, if it is a fixed-count array. */
  function FixedIndex(fields: seq<Field>, key: nat): Option<nat> {
    match FindTag(fields, key / 8)
    case None => None
    case Some(i) => if fields[i].FixedCount() then Some(i) else None
  }

  lemma FieldIgnoresFixed(env: Schema, m: nat, i: nat, wireType: nat, st: State, s: seq<byte>, ff: Option<nat>, fs: nat)
    requires m < |env| && i < |env[m]| && !env[m][i].FixedCount()
    ensures DecodeField(env, m, i, wireType, WithFixed(st, ff, fs), s) ==
            ReadWithFixed(DecodeField(env, m, i, wireType, st, s), ff, fs)
  {
    TableField(env, m, i);
  }

  lemma RecordIgnoresFixed(env: Schema, m: nat, key: nat, st: State, s: seq<byte>, ff: Option<nat>, fs: nat)
    requires m < |env| && FixedIndex(env[m], key).None?
    ensures DecodeRecord(env, m, key, WithFixed(st, ff, fs), s) ==
            ReadWithFixed(DecodeRecord(env, m, key, st, s), ff, fs)
    ensures DecodeRecord(env, m, key, st, s).Got? ==>
              DecodeRecord(env, m, key, st, s).v.fixedField == st.fixedField
    ensures DecodeRecord(env, m, key, st, s).Got? ==>
              DecodeRecord(env, m, key, st, s).v.fixedSize == st.fixedSize
  {
    match FindTag(env[m], key / 8)
    case None =>
    case Some(i) =>
      hide DecodeField;
      FieldIgnoresFixed(env, m, i, key % 8, MarkSeen(env[m], st, i), s, ff, fs);
      FieldIgnoresFixed(env, m, i, key % 8, MarkSeen(env[m], st, i), s, st.fixedField, st.fixedSize);
      assert WithFixed(MarkSeen(env[m], st, i), ff, fs) == MarkSeen(env[m], WithFixed(st, ff, fs), i);
      assert WithFixed(MarkSeen(env[m], st, i), st.fixedField, st.fixedSize) == MarkSeen(env[m], st, i);
  }

  /** The fixed-count array whose record comes first in a stream. */
  ghost function FirstFixed(env: Schema, m: nat, st: State, s: seq<byte>): Option<nat>
    requires m < |env|
    decreases |s|
  {
    if s == [] then None
    else
      match ReadKey(s)
      case Bad => None
      case Got(key, rest) =>
        if key == 0 then None
        else if FixedIndex(env[m], key).Some? then FixedIndex(env[m], key)
        else
          match DecodeRecord(env, m, key, st, rest)
          case Bad => None
          case Got(st', rest') => FirstFixed(env, m, st', rest')
  }

  // ----- a complete array followed by other fixed-count arrays -----

  /** The run of the second message on its own (`r`), and after the first (`r'`). */
  ghost predicate SameMessage(fields: seq<Field>, r: Outcome, r': Outcome) {
    match (r, r')
    case (Failed, Failed) => true
    case (Ended(st), Ended(st')) => SameState(fields, st, st')
    case (Stopped(st, rest), Stopped(st', rest')) => SameState(fields, st, st') && rest == rest'
    case _ => false
  }

  ghost predicate SameState(fields: seq<Field>, st: State, st': State) {
    && st.cells == st'.cells
    && st.seen == st'.seen
    && (FixedComplete(fields, st) <==> FixedComplete(fields, st'))
  }

  lemma FirstFixedSame(env: Schema, m: nat, key: nat, st: State, s: seq<byte>, ff: nat, fs: nat)
    requires m < |env| && ff < |env[m]| && fs == env[m][ff].arraySize
    requires st.fixedField == None
    requires FixedIndex(env[m], key).Some? && FixedIndex(env[m], key) != Some(ff)
    ensures DecodeRecord(env, m, key, WithFixed(st, Some(ff), fs), s) == DecodeRecord(env, m, key, st, s)
  {
    hide DecodeField;
    var i := FindTag(env[m], key / 8).value;
    assert EnterFixed(env[m], WithFixed(st, Some(ff), fs), i) == EnterFixed(env[m], st, i);
  }

  /** An array `ff` finished before the stream starts makes no difference when another
      fixed-count array, or none, comes first in it (or when `ff` has no entries). */
  lemma {:induction false} RunAfterFixed(env: Schema, m: nat, st: State, s: seq<byte>, ff: nat, fs: nat)
    requires m < |env| && ff < |env[m]| && fs == env[m][ff].arraySize
    requires st.fixedField == None
    requires FirstFixed(env, m, st, s) != Some(ff) || fs == 0
    ensures SameMessage(env[m], Run(env, m, st, s), Run(env, m, WithFixed(st, Some(ff), fs), s))
    decreases |s|
  {
    hide DecodeRecord, ReadKey;
    if s != [] && ReadKey(s).Got? && ReadKey(s).v != 0 {
      var key, rest := ReadKey(s).v, ReadKey(s).rest;
      if FixedIndex(env[m], key) == Some(ff) {
        FirstFixedEnters(env, m, key, st, rest, ff);
      } else if FixedIndex(env[m], key).Some? {
        FirstFixedSame(env, m, key, st, rest, ff, fs);
      } else {
        RecordIgnoresFixed(env, m, key, st, rest, Some(ff), fs);
        var r := DecodeRecord(env, m, key, st, rest);
        if r.Got? {
          RunAfterFixed(env, m, r.v, r.rest, ff, fs);
        }
      }
    }
  }

  // ----- a complete array that comes again -----

  /** A state in which array `ff` is full, next to one in which it is empty. */
  ghost predicate FullAndEmpty(fields: seq<Field>, ff: nat, full: State, empty: State) {
    && ff < |fields| && fields[ff].FixedCount() && fields[ff].arraySize > 0
    && empty.fixedField == Some(ff) && empty.fixedSize == 0
    && full == WithFixed(empty, Some(ff), fields[ff].arraySize)
  }

  /** Once full, the array takes no further entry. */
  lemma FullRejects(env: Schema, m: nat, key: nat, full: State, empty: State, s: seq<byte>, ff: nat)
    requires m < |env| && FullAndEmpty(env[m], ff, full, empty)
    requires FixedIndex(env[m], key) == Some(ff)
    ensures var r := DecodeRecord(env, m, key, empty, s);
      var r' := DecodeRecord(env, m, key, full, s);
      r'.Got? ==> r.Got? && r.rest == r'.rest && FullAndEmpty(env[m], ff, r'.v, r.v)
  {
    TableField(env, m, ff);
  }

  /** With another fixed-count array the empty one is reported as incomplete. */
  lemma EmptyRejects(env: Schema, m: nat, key: nat, full: State, empty: State, s: seq<byte>, ff: nat)
    requires m < |env| && FullAndEmpty(env[m], ff, full, empty)
    requires FixedIndex(env[m], key).Some? && FixedIndex(env[m], key) != Some(ff)
    ensures DecodeRecord(env, m, key, empty, s).Bad?
  {
  }

  ghost predicate Accepted(fields: seq<Field>, r: Outcome) {
    (r.Ended? || r.Stopped?) && FixedComplete(fields, r.st)
  }

  lemma {:induction false} RepeatedFixedFails(env: Schema, m: nat, full: State, empty: State, s: seq<byte>, ff: nat)
    requires m < |env| && FullAndEmpty(env[m], ff, full, empty)
    requires Accepted(env[m], Run(env, m, empty, s))
    ensures Run(env, m, full, s).Failed?
    decreases |s|
  {
    hide DecodeRecord, ReadKey;
    if s != [] && ReadKey(s).Got? && ReadKey(s).v != 0 {
      var key, rest := ReadKey(s).v, ReadKey(s).rest;
      if FixedIndex(env[m], key) == Some(ff) {
        FullRejects(env, m, key, full, empty, rest, ff);
      } else if FixedIndex(env[m], key).Some? {
        EmptyRejects(env, m, key, full, empty, rest, ff);
      } else {
        RecordIgnoresFixed(env, m, key, empty, rest, Some(ff), env[m][ff].arraySize);
      }
      var r, r' := DecodeRecord(env, m, key, empty, rest), DecodeRecord(env, m, key, full, rest);
      if r'.Got? {
        RepeatedFixedFails(env, m, r'.v, r.v, r.rest, ff);
      }
    }
  }

  lemma FirstFixedEnters(env: Schema, m: nat, key: nat, st: State, s: seq<byte>, ff: nat)
    requires m < |env| && st.fixedField == None
    requires FixedIndex(env[m], key) == Some(ff)
    ensures ff < |env[m]| && env[m][ff].FixedCount()
    ensures DecodeRecord(env, m, key, st, s) == DecodeRecord(env, m, key, WithFixed(st, Some(ff), 0), s)
  {
    hide DecodeField;
  }

  lemma {:induction false} RunRepeatsFixed(env: Schema, m: nat, st: State, s: seq<byte>, ff: nat)
    requires m < |env| && st.fixedField == None
    requires FirstFixed(env, m, st, s) == Some(ff)
    requires ff < |env[m]| && env[m][ff].arraySize > 0
    requires Accepted(env[m], Run(env, m, st, s))
    ensures Run(env, m, WithFixed(st, Some(ff), env[m][ff].arraySize), s).Failed?
    decreases |s|
  {
    hide DecodeRecord, ReadKey;
    var key, rest := ReadKey(s).v, ReadKey(s).rest;
    var fs := env[m][ff].arraySize;
    if FixedIndex(env[m], key).Some? {
      var empty := WithFixed(st, Some(ff), 0);
      FirstFixedEnters(env, m, key, st, rest, ff);
      assert Run(env, m, empty, s) == Run(env, m, st, s);
      RepeatedFixedFails(env, m, WithFixed(st, Some(ff), fs), empty, s, ff);
    } else {
      RecordIgnoresFixed(env, m, key, st, rest, Some(ff), fs);
      var r := DecodeRecord(env, m, key, st, rest);
      RunRepeatsFixed(env, m, r.v, r.rest, ff);
    }
  }

  // ----- reading records without decoding them -----

  /** What a record of a field takes from the stream: the wire type only tells packed arrays. */
  function Extent(f: Field, wireType: nat, s: seq<byte>): (r: Read<()>)
    ensures r.Got? ==> |r.rest| <= |s|
  {
    if f.htype.Repeated? && wireType == WT_STRING && f.ltype.Packable() then Forget(ReadSubstream(s))
    else
      match f.ltype
      case LBool => Forget(ReadVarint32(s))
      case LVarint => Forget(ReadVarint(s))
      case LUvarint => Forget(ReadVarint(s))
      case LSvarint => Forget(ReadVarint(s))
      case LFixed32 => Forget(ReadBytes(s, 4))
      case LFixed64 => Forget(ReadBytes(s, 8))
      case _ => Forget(ReadSubstream(s))
  }

  function ScanRecord(fields: seq<Field>, key: nat, s: seq<byte>): (r: Read<()>)
    ensures r.Got? ==> |r.rest| <= |s|
  {
    match FindTag(fields, key / 8)
    case None => if key / 8 == 0 && fields == [] then Forget(ReadVarint32(s)) else SkipField(key % 8, s)
    case Some(i) => Extent(fields[i], key % 8, s)
  }

  /** The fixed-count arrays that a stream has records of, in order. */
  function FixedKeys(fields: seq<Field>, s: seq<byte>): seq<nat>
    decreases |s|
  {
    if s == [] || ReadKey(s).Bad? || ReadKey(s).v == 0 then []
    else
      var key, rest := ReadKey(s).v, ReadKey(s).rest;
      var first := if FixedIndex(fields, key).Some? then [FixedIndex(fields, key).value] else [];
      match ScanRecord(fields, key, rest)
      case Bad => first
      case Got(_, rest') => first + FixedKeys(fields, rest')
  }

  /** The last fixed-count array of the first message is the first one of the second, and has
      entries. */
  predicate FixedClash(fields: seq<Field>, a: seq<byte>, b: seq<byte>) {
    var x, y := FixedKeys(fields, a), FixedKeys(fields, b);
    x != [] && y != [] && x[|x| - 1] == y[0] && y[0] < |fields| && fields[y[0]].arraySize > 0
  }

  lemma ScalarExtent(f: Field, s: seq<byte>)
    requires DecodeScalar(f, s).Got?
    ensures Extent(f, WT_VARINT, s) == Got((), DecodeScalar(f, s).rest)
  {
    hide ReadVarint32, ReadVarint, ReadBytes, ReadSubstream, DecodeString, DecodeBytes, DecodeInline;
    if f.ltype.LString? || f.ltype.LBytes? || f.ltype.LFixedLengthBytes? {
      DelimitedExtent(f, s);
    }
  }

  lemma DelimitedExtent(f: Field, s: seq<byte>)
    ensures DecodeString(f, s).Got? ==> Forget(ReadSubstream(s)) == Got((), DecodeString(f, s).rest)
    ensures DecodeBytes(f, s).Got? ==> Forget(ReadSubstream(s)) == Got((), DecodeBytes(f, s).rest)
    ensures DecodeInline(f, s).Got? ==> Forget(ReadSubstream(s)) == Got((), DecodeInline(f, s).rest)
  {
    hide ReadVarint32;
  }

  /** A record that is decoded is read over to the same place. */
  lemma FieldExtent(env: Schema, m: nat, i: nat, wireType: nat, st: State, s: seq<byte>)
    requires m < |env| && i < |env[m]| && DecodeField(env, m, i, wireType, st, s).Got?
    ensures Extent(env[m][i], wireType, s) == Got((), DecodeField(env, m, i, wireType, st, s).rest)
  {
    hide DecodeScalar, ReadSubstream, ReadVarint32, ReadVarint, ReadBytes, DecodePacked;
    TableField(env, m, i);
    var f := env[m][i];
    if !(f.htype.Repeated? && wireType == WT_STRING && f.ltype.Packable()) && !f.ltype.LSubmessage? {
      ScalarExtent(f, s);
    }
  }

  lemma RecordScanned(env: Schema, m: nat, key: nat, st: State, s: seq<byte>)
    requires m < |env| && DecodeRecord(env, m, key, st, s).Got?
    ensures ScanRecord(env[m], key, s) == Got((), DecodeRecord(env, m, key, st, s).rest)
    ensures DecodeRecord(env, m, key, st, s).v.fixedField ==
            if FixedIndex(env[m], key).Some? then FixedIndex(env[m], key) else st.fixedField
  {
    hide DecodeField, Extent;
    if FindTag(env[m], key / 8).Some? {
      var i := FindTag(env[m], key / 8).value;
      var st1 := MarkSeen(env[m], EnterFixed(env[m], st, i).value, i);
      FieldExtent(env, m, i, key % 8, st1, s);
      FieldKeepsFixed(env, m, i, key % 8, st1, s);
    }
  }

  lemma FieldKeepsFixed(env: Schema, m: nat, i: nat, wireType: nat, st: State, s: seq<byte>)
    requires m < |env| && i < |env[m]| && DecodeField(env, m, i, wireType, st, s).Got?
    ensures DecodeField(env, m, i, wireType, st, s).v.fixedField == st.fixedField
  {
    hide DecodeValue, DecodePacked;
    TableField(env, m, i);
  }

  /** On a stream that is decoded the scan finds the fixed-count arrays that the decoder meets:
      the last one is in its bookkeeping at the end, and the first one is what a second message
      begins with. */
  lemma {:induction false} ScanAgrees(env: Schema, m: nat, st: State, s: seq<byte>)
    requires m < |env| && !Run(env, m, st, s).Failed?
    ensures var found := FixedKeys(env[m], s);
      && Run(env, m, st, s).st.fixedField == (if found == [] then st.fixedField else Some(found[|found| - 1]))
      && FirstFixed(env, m, st, s) == (if found == [] then None else Some(found[0]))
    decreases |s|
  {
    hide DecodeRecord, ReadKey, ScanRecord, FixedIndex;
    if s != [] && ReadKey(s).Got? && ReadKey(s).v != 0 {
      var key, rest := ReadKey(s).v, ReadKey(s).rest;
      RecordScanned(env, m, key, st, rest);
      var r := DecodeRecord(env, m, key, st, rest);
      ScanAgrees(env, m, r.v, r.rest);
    }
  }

  // ----- the theorem -----

  /** Let `a` decode from `cells` to `cells1` without an early zero tag, and `b` from there
      to `cells2`.  Then `a + b` decodes from `cells` to `cells2`, unless the two messages
      meet in the same nonempty fixed-count array: then it is rejected.  Whether they meet can
      be read off the two streams. */
  lemma ConcatenationIsMerge(env: Schema, m: nat, cells: seq<Cell>, a: seq<byte>, b: seq<byte>)
    requires m < |env|
    requires Run(env, m, Start(cells), a).Ended?
    requires DecodeMsg(env, m, cells, a).Got?
    requires DecodeMsg(env, m, DecodeMsg(env, m, cells, a).v, b).Got?
    ensures DecodeMsg(env, m, cells, a + b) ==
            if FixedClash(env[m], a, b) then Bad
            else DecodeMsg(env, m, DecodeMsg(env, m, cells, a).v, b)
  {
    hide FirstFixed, FixedKeys;
    var st1 := Run(env, m, Start(cells), a).st;
    RunAppend(env, m, Start(cells), a, b);
    var alone := Start(st1.cells);
    var after := WithFixed(alone, st1.fixedField, st1.fixedSize);
    assert WithSeen(after, st1.seen) == st1;
    RunIgnoresSeen(env, m, after, b, st1.seen);
    FixedFieldValid(env, m, Start(cells), a);
    ScanAgrees(env, m, Start(cells), a);
    ScanAgrees(env, m, alone, b);
    if st1.fixedField.None? {
      SizeIrrelevant(env, m, alone, b, st1.fixedSize);
    } else if FixedClash(env[m], a, b) {
      RunRepeatsFixed(env, m, alone, b, st1.fixedField.value);
    } else {
      RunAfterFixed(env, m, alone, b, st1.fixedField.value, st1.fixedSize);
    }
  }

  /** Two messages of one flag in a fixed-count array of one entry: each is decoded, also one
      after the other, but their concatenation is not. */
  lemma MergeFails() returns (env: Schema, a: seq<byte>)
    ensures env == [[Field(1, LBool, Repeated, Static, 0, 0, 1, 1, NullPtr)]] && a == [8, 1]
    ensures FixedClash(env[0], a, a)
    ensures var cells := [Arr([VBool(true)])];
      && DecodeMsg(env, 0, Defaults(env, 0), a) == Got(cells, [])
      && DecodeMsg(env, 0, cells, a) == Got(cells, [])
      && DecodeMsg(env, 0, Defaults(env, 0), a + a).Bad?
  {
    var f := Field(1, LBool, Repeated, Static, 0, 0, 1, 1, NullPtr);
    env, a := [[f]], [8, 1];
    var cells := [Arr([VBool(true)])];
    assert FixedKeys([f], a) == [0] by {
      assert ReadKey(a) == Got(8, [1]) && FindTag([f], 1) == Some(0);
      assert ScanRecord([f], 8, [1]) == Got((), []) && FixedKeys([f], []) == [];
    }
    OneFlag(env, f, [Arr([])], a);
    OneFlag(env, f, cells, a);
    assert Defaults(env, 0) == [Arr([])];
    ConcatenationIsMerge(env, 0, Defaults(env, 0), a, a);
  }

  /** Decoding the flag once. */
  lemma OneFlag(env: Schema, f: Field, cells: seq<Cell>, a: seq<byte>)
    requires f == Field(1, LBool, Repeated, Static, 0, 0, 1, 1, NullPtr) && env == [[f]] && a == [8, 1]
    requires cells == [Arr([])] || cells == [Arr([VBool(true)])]
    ensures Run(env, 0, Start(cells), a).Ended?
    ensures DecodeMsg(env, 0, cells, a) == Got([Arr([VBool(true)])], [])
  {
    var st := State([Arr([VBool(true)])], Some(0), 1, {});
    assert ReadKey(a) == Got(8, [1]) && FindTag(env[0], 1) == Some(0);
    var entered := State(cells, Some(0), 0, {});
    assert EnterFixed(env[0], Start(cells), 0) == Some(entered) && MarkSeen(env[0], entered, 0) == entered;
    assert DecodeField(env, 0, 0, 0, entered, [1]) == Got(st, []) by {
      assert DecodeScalar(f, [1]) == Got(VBool(true), []);
      assert DecodeValue(env, 0, f, VInt(0), [1]) == Got(VBool(true), []);
      assert SlotOf(env[0], 0) == 0 && CellAt(cells, 0) == cells[0];
      assert SetCell(cells, 0, Arr([VBool(true)])) == [Arr([VBool(true)])];
      assert PutItem(cells[0].Items(), 0, VBool(true)) == [VBool(true)];
    }
    hide DecodeRecord;
    RunStep(env, 0, Start(cells), a);
    assert Run(env, 0, st, []) == Ended(st);
  }

  ghost predicate FixedFieldOk(fields: seq<Field>, st: State) {
    st.fixedField.Some? ==> st.fixedField.value < |fields| && fields[st.fixedField.value].FixedCount()
  }

  lemma RecordKeepsFixedField(env: Schema, m: nat, key: nat, st: State, s: seq<byte>)
    requires m < |env| && FixedFieldOk(env[m], st)
    requires DecodeRecord(env, m, key, st, s).Got?
    ensures FixedFieldOk(env[m], DecodeRecord(env, m, key, st, s).v)
  {
    if FindTag(env[m], key / 8).Some? {
      assert FieldOk(m, env[m][FindTag(env[m], key / 8).value]);
    }
  }

  /** The bookkeeping always refers to a fixed-count array of the descriptor. */
  lemma {:induction false} FixedFieldValid(env: Schema, m: nat, st: State, s: seq<byte>)
    requires m < |env| && FixedFieldOk(env[m], st)
    ensures Run(env, m, st, s).Ended? ==> FixedFieldOk(env[m], Run(env, m, st, s).st)
    decreases |s|
  {
    hide DecodeRecord, ReadKey;
    if s != [] && ReadKey(s).Got? && ReadKey(s).v != 0 {
      var key, rest := ReadKey(s).v, ReadKey(s).rest;
      var r := DecodeRecord(env, m, key, st, rest);
      if r.Got? {
        RecordKeepsFixedField(env, m, key, st, rest);
        FixedFieldValid(env, m, r.v, r.rest);
      }
    }
  }

  /** Without an array in progress the size in the bookkeeping is not used. */
  lemma {:induction false} SizeIrrelevant(env: Schema, m: nat, st: State, s: seq<byte>, fs: nat)
    requires m < |env| && st.fixedField == None
    ensures SameMessage(env[m], Run(env, m, st, s), Run(env, m, WithFixed(st, None, fs), s))
    decreases |s|
  {
    hide DecodeRecord, ReadKey;
    if s != [] && ReadKey(s).Got? && ReadKey(s).v != 0 {
      var key, rest := ReadKey(s).v, ReadKey(s).rest;
      if FixedIndex(env[m], key).Some? {
        var i := FixedIndex(env[m], key).value;
        FirstFixedEnters(env, m, key, st, rest, i);
        FirstFixedEnters(env, m, key, WithFixed(st, None, fs), rest, i);
      } else {
        RecordIgnoresFixed(env, m, key, st, rest, None, fs);
        var r := DecodeRecord(env, m, key, st, rest);
        if r.Got? {
          SizeIrrelevant(env, m, r.v, r.rest, fs);
        }
      }
    }
  }
}
