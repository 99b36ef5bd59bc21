/**
  The required-field check of `pb_decode_noinit`: the set of bits it collects is
  the set of required fields that occurred, so decoding succeeds exactly when
  every tracked one did.
*/
module PbRequired {
  import opened Bits
  import opened PbTypes
  import opened PbDecodeSpec

  /** The fields that have a record in the stream. */
  ghost function Occurring(env: Schema, m: nat, st: State, s: seq<byte>): set<nat>
    requires m < |env|
    decreases |s|
  {
    if s == [] || ReadKey(s).Bad? || ReadKey(s).v == 0 then {}
    else
      var key, rest := ReadKey(s).v, ReadKey(s).rest;
      var r := DecodeRecord(env, m, key, st, rest);
      if r.Bad? then {} else IndexOfKey(env[m], key) + Occurring(env, m, r.v, r.rest)
  }

  function IndexOfKey(fields: seq<Field>, key: nat): set<nat> {
    if FindTag(fields, key / 8).Some? then {FindTag(fields, key / 8).value} else {}
  }

  /** Field `i` is one of the required fields the decoder keeps track of. */
  predicate Tracked(fields: seq<Field>, i: nat) {
    i < |fields| && fields[i].htype.Required? && RequiredBefore(fields, i) < 64
  }

  /** `seen` holds the numbers of the tracked fields in `occurring`, besides `before`. */
  ghost predicate SeenExactly(fields: seq<Field>, before: set<nat>, seen: set<nat>, occurring: set<nat>) {
    forall k :: k in seen <==>
      k in before || exists i: nat :: i in occurring && Tracked(fields, i) && k == RequiredBefore(fields, i)
  }

  lemma RecordSeen(env: Schema, m: nat, key: nat, st: State, s: seq<byte>)
    requires m < |env|
    requires DecodeRecord(env, m, key, st, s).Got?
    ensures SeenExactly(env[m], st.seen, DecodeRecord(env, m, key, st, s).v.seen, IndexOfKey(env[m], key))
  {
    match FindTag(env[m], key / 8)
    case None =>
    case Some(i) =>
      TableField(env, m, i);
      var st1 := EnterFixed(env[m], st, i).value;
      assert st1.seen == st.seen;
      var r := DecodeRecord(env, m, key, st, s);
      assert r.v.seen == MarkSeen(env[m], st1, i).seen;
      assert i in IndexOfKey(env[m], key);
      if Tracked(env[m], i) {
        assert r.v.seen == st.seen + {RequiredBefore(env[m], i)};
      }
  }

  lemma SeenCompose(fields: seq<Field>, a: set<nat>, b: set<nat>, c: set<nat>, x: set<nat>, y: set<nat>)
    requires SeenExactly(fields, a, b, x) && SeenExactly(fields, b, c, y)
    ensures SeenExactly(fields, a, c, x + y)
  {
    forall k ensures k in c <==>
      k in a || exists i: nat :: i in x + y && Tracked(fields, i) && k == RequiredBefore(fields, i)
    {
      if i: nat :| i in x + y && Tracked(fields, i) && k == RequiredBefore(fields, i) {
        assert i in x || i in y;
        assert k in b || k in c;
      }
    }
  }

  lemma {:induction false} RunSeen(env: Schema, m: nat, st: State, s: seq<byte>)
    requires m < |env| && !Run(env, m, st, s).Failed?
    ensures SeenExactly(env[m], st.seen, Run(env, m, st, s).st.seen, Occurring(env, m, st, s))
    decreases |s|
  {
    hide DecodeRecord, ReadKey;
    if s != [] && ReadKey(s).Got? && ReadKey(s).v != 0 {
      var key, rest := ReadKey(s).v, ReadKey(s).rest;
      var r := DecodeRecord(env, m, key, st, rest);
      RecordSeen(env, m, key, st, rest);
      RunSeen(env, m, r.v, r.rest);
      SeenCompose(env[m], st.seen, r.v.seen, Run(env, m, st, s).st.seen,
                  IndexOfKey(env[m], key), Occurring(env, m, r.v, r.rest));
    }
  }

  /** The `k`-th required field. */
  lemma {:induction false} RequiredField(fields: seq<Field>, n: nat, k: nat) returns (i: nat)
    requires n <= |fields| && k < RequiredBefore(fields, n)
    ensures i < n && fields[i].htype.Required? && RequiredBefore(fields, i) == k
  {
    if k < RequiredBefore(fields, n - 1) {
      i := RequiredField(fields, n - 1, k);
    } else {
      i := n - 1;
    }
  }

  lemma RequiredNumbersDistinct(fields: seq<Field>, i: nat, j: nat)
    requires i < j < |fields| && fields[i].htype.Required?
    ensures RequiredBefore(fields, i) < RequiredBefore(fields, j)
  {
    RequiredMonotone(fields, i + 1, j);
  }

  ghost predicate AllTrackedOccur(fields: seq<Field>, occurring: set<nat>) {
    forall i: nat | Tracked(fields, i) :: i in occurring
  }

  lemma OccurringSuffices(fields: seq<Field>, st: State, occurring: set<nat>)
    requires SeenExactly(fields, {}, st.seen, occurring) && AllTrackedOccur(fields, occurring)
    ensures RequiredComplete(fields, st)
  {
    forall k: nat | k < NumRequired(fields) && k < PB_MAX_REQUIRED_FIELDS ensures k in st.seen {
      var i := RequiredField(fields, |fields|, k);
      assert Tracked(fields, i);
    }
  }

  lemma OccurringNecessary(fields: seq<Field>, st: State, occurring: set<nat>)
    requires SeenExactly(fields, {}, st.seen, occurring) && RequiredComplete(fields, st)
    ensures AllTrackedOccur(fields, occurring)
  {
    forall i: nat | Tracked(fields, i) ensures i in occurring {
      var k := RequiredBefore(fields, i);
      RequiredMonotone(fields, i + 1, |fields|);
      assert k in st.seen;
      var j: nat :| j in occurring && Tracked(fields, j) && k == RequiredBefore(fields, j);
      if i < j {
        RequiredNumbersDistinct(fields, i, j);
      } else if j < i {
        RequiredNumbersDistinct(fields, j, i);
      }
    }
  }

  /** When every record decodes and the last fixed-count array is complete,
      `pb_decode_noinit` succeeds if and only if each of the first 64 required fields of the
      descriptor occurs in the stream. */
  lemma RequiredFieldsChecked(env: Schema, m: nat, cells: seq<Cell>, s: seq<byte>)
    requires m < |env|
    requires !Run(env, m, Start(cells), s).Failed?
    requires FixedComplete(env[m], Run(env, m, Start(cells), s).st)
    ensures DecodeMsg(env, m, cells, s).Got? <==>
            AllTrackedOccur(env[m], Occurring(env, m, Start(cells), s))
  {
    var st := Run(env, m, Start(cells), s).st;
    var occurring := Occurring(env, m, Start(cells), s);
    RunSeen(env, m, Start(cells), s);
    hide Run, Occurring, RequiredComplete, AllTrackedOccur, SeenExactly;
    if AllTrackedOccur(env[m], occurring) {
      OccurringSuffices(env[m], st, occurring);
    }
    if RequiredComplete(env[m], st) {
      OccurringNecessary(env[m], st, occurring);
    }
  }
}
