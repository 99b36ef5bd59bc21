/**
  Punycode as RFC 3492 defines it: the decoding procedure of section 6.2, on
  unbounded integers, and what an encoder has to keep so that it is undone.
*/
module Punycode {
  import opened Bits
  import opened Collections

  // ----- the decoder, section 6.2 -----

  const HYPHEN: byte := 45

  /** The digit-value of a basic code point, section 5. */
  function DigitValue(ch: byte): Option<nat> {
    if 97 <= ch <= 122 then Some(ch - 97)
    else if 65 <= ch <= 90 then Some(ch - 65)
    else if 48 <= ch <= 57 then Some(ch - 48 + 26)
    else None
  }

  /** Section 6.1. */
  function Adapt(delta: nat, points: nat, first: bool): nat
    requires points > 0
  {
    var d := if first then delta / 700 else delta / 2;
    AdaptLoop(Spread(d, points), 0)
  }

  function Spread(delta: nat, points: nat): nat
    requires points > 0
  {
    delta + delta / points
  }

  function AdaptLoop(delta: nat, k: nat): nat {
    if delta > 35 * 26 / 2 then AdaptLoop(delta / 35, k + 36) else k + 36 * delta / (delta + 38)
  }

  function Threshold(k: nat, bias: nat): (t: nat)
    ensures 1 <= t <= 26
  {
    if k <= bias then 1 else if k >= bias + 26 then 26 else k - bias
  }

  /** Adding one variable-length integer to `i`. */
  function ReadInt(text: seq<byte>, i: nat, w: nat, k: nat, bias: nat): (r: Option<(nat, seq<byte>)>)
    ensures r.Some? ==> |r.value.1| < |text|
    decreases |text|
  {
    if text == [] then None
    else
      match DigitValue(text[0])
      case None => None
      case Some(digit) =>
        var t := Threshold(k, bias);
        if digit < t then Some((Added(i, digit, w), text[1..]))
        else ReadInt(text[1..], Added(i, digit, w), NextWeight(w, t), k + 36, bias)
  }

  function Added(i: nat, digit: nat, w: nat): nat {
    i + digit * w
  }

  function NextWeight(w: nat, t: nat): nat
    requires t <= 36
  {
    w * (36 - t)
  }

  datatype State = State(n: nat, i: nat, bias: nat, out: seq<nat>)

  /** One round of the main loop: one insertion. */
  function Round(st: State, text: seq<byte>): (r: Option<(State, seq<byte>)>)
    ensures r.Some? ==> |r.value.1| < |text|
  {
    match ReadInt(text, st.i, 1, 36, st.bias)
    case None => None
    case Some((i, rest)) =>
      if i < st.i then None else Some((Inserted(st, i), rest))
  }

  function Inserted(st: State, i: nat): State
    requires i >= st.i
  {
    var points := |st.out| + 1;
    var n := st.n + i / points;
    var at := i % points;
    State(n, at + 1, Adapt(i - st.i, points, st.i == 0), st.out[..at] + [n] + st.out[at..])
  }

  /** The main loop. */
  function Rounds(st: State, text: seq<byte>): Option<State>
    decreases |text|
  {
    if text == [] then Some(st)
    else
      match Round(st, text)
      case None => None
      case Some((next, rest)) => Rounds(next, rest)
  }

  /** Position of the last delimiter, or the length when there is none. */
  function LastHyphen(text: seq<byte>, from: nat): (h: nat)
    requires from <= |text|
    ensures h <= |text|
    decreases from
  {
    if from == 0 then |text| else if text[from - 1] == HYPHEN then from - 1 else LastHyphen(text, from - 1)
  }

  function Decode(text: seq<byte>): Option<seq<nat>> {
    var h := LastHyphen(text, |text|);
    var basic := if h == |text| then [] else text[..h];
    var digits := if basic == [] then text else text[h + 1..];
    if exists i: nat | i < |basic| :: basic[i] >= 128 then None
    else
      match Rounds(State(128, 0, 72, basic), digits)
      case None => None
      case Some(st) => Some(st.out)
  }

  // ----- the encoding of one integer -----

  function Digit(d: nat): byte
    requires d < 36
  {
    if d < 26 then 97 + d else 48 + d - 26
  }

  /** The variable-length integer `q`, section 3.3. */
  function VarInt(q: nat, k: nat, bias: nat): seq<byte> {
    var t := Threshold(k, bias);
    if q < t then [Digit(q)] else [Digit(LowDigit(q, t))] + VarInt(HighPart(q, t), k + 36, bias)
  }

  function LowDigit(q: nat, t: nat): (d: nat)
    requires 1 <= t <= 26 && t <= q
    ensures t <= d < 36
  {
    t + (q - t) % (36 - t)
  }

  function HighPart(q: nat, t: nat): (r: nat)
    requires 1 <= t <= 26 && t <= q
    ensures 2 * r < q && LowDigit(q, t) + r * (36 - t) == q
  {
    var r := (q - t) / (36 - t);
    assert q - t == r * (36 - t) + (q - t) % (36 - t);
    MulAtMost(10, 36 - t, r);
    r
  }

  /** Reading a variable-length integer adds it, scaled. */
  lemma {:induction false} ReadsVarInt(q: nat, i: nat, w: nat, k: nat, bias: nat)
    ensures var r := ReadInt(VarInt(q, k, bias), i, w, k, bias); r.Some? && r.value.0 == i + q * w && r.value.1 == []
    decreases q
  {
    var t := Threshold(k, bias);
    var text := VarInt(q, k, bias);
    hide LowDigit, Digit;
    if q >= t {
      var digit, rest := LowDigit(q, t), HighPart(q, t);
      DigitRoundTrip(digit);
      ReadsVarInt(rest, Added(i, digit, w), NextWeight(w, t), k + 36, bias);
      assert text[1..] == VarInt(rest, k + 36, bias);
      Weigh(q, digit, rest, 36 - t, w);
    } else {
      DigitRoundTrip(q);
    }
  }

  lemma DigitRoundTrip(d: nat)
    requires d < 36
    ensures DigitValue(Digit(d)) == Some(d)
  {
  }

  lemma Weigh(q: nat, digit: nat, rest: nat, y: nat, w: nat)
    requires q == digit + rest * y
    ensures digit * w + rest * (w * y) == q * w
  {
  }

  /** Digits in lower case. */
  ghost predicate AreDigits(text: seq<byte>) {
    forall k: nat | k < |text| :: 'a' as int <= text[k] <= 'z' as int || '0' as int <= text[k] <= '9' as int
  }

  lemma {:induction false} VarIntIsDigits(q: nat, k: nat, bias: nat)
    ensures AreDigits(VarInt(q, k, bias))
    decreases q
  {
    var t := Threshold(k, bias);
    if q >= t {
      VarIntIsDigits(HighPart(q, t), k + 36, bias);
    }
  }

  // ----- finding the delimiter -----

  lemma {:induction false} LastHyphenIs(text: seq<byte>, h: nat, from: nat)
    requires h < from <= |text| && text[h] == HYPHEN
    requires forall i: nat | h < i < |text| :: text[i] != HYPHEN
    ensures LastHyphen(text, from) == h
    decreases from
  {
    if h < from - 1 {
      LastHyphenIs(text, h, from - 1);
    }
  }

  lemma {:induction false} NoHyphenAtAll(text: seq<byte>, from: nat)
    requires AreDigits(text) && from <= |text|
    ensures LastHyphen(text, from) == |text|
    decreases from
  {
    if from > 0 {
      NoHyphenAtAll(text, from - 1);
    }
  }

  // ----- runs of the decoder -----

  lemma {:induction false} ReadIntAppend(text: seq<byte>, more: seq<byte>, i: nat, w: nat, k: nat, bias: nat)
    requires ReadInt(text, i, w, k, bias).Some?
    ensures var r := ReadInt(text, i, w, k, bias).value;
      ReadInt(text + more, i, w, k, bias) == Some((r.0, r.1 + more))
    decreases |text|
  {
    hide Added, NextWeight, Threshold, DigitValue;
    var t := Threshold(k, bias);
    var digit := DigitValue(text[0]).value;
    assert (text + more)[1..] == text[1..] + more;
    if digit >= t {
      ReadIntAppend(text[1..], more, Added(i, digit, w), NextWeight(w, t), k + 36, bias);
    }
  }

  /** A run followed by one more round. */
  lemma {:induction false} RoundsAppend(st: State, text: seq<byte>, mid: State, piece: seq<byte>, last: State)
    requires Rounds(st, text) == Some(mid) && Round(mid, piece) == Some((last, []))
    ensures Rounds(st, text + piece) == Some(last)
    decreases |text|
  {
    hide ReadInt, Inserted;
    if text == [] {
      assert text + piece == piece;
    } else {
      ReadIntAppend(text, piece, st.i, 1, 36, st.bias);
      var r := Round(st, text).value;
      RoundsAppend(r.0, r.1, mid, piece, last);
    }
  }

  // ----- what an encoder keeps -----

  /** The code points below `m`. */
  function Keep(cps: seq<nat>, m: nat): (r: seq<nat>)
    ensures |r| <= |cps|
  {
    if cps == [] then []
    else if cps[0] < m then [cps[0]] + Keep(cps[1..], m)
    else Keep(cps[1..], m)
  }

  lemma KeepUnfold(cps: seq<nat>, m: nat)
    ensures cps == [] ==> Keep(cps, m) == []
    ensures cps != [] ==> Keep(cps, m) == (if cps[0] < m then [cps[0]] else []) + Keep(cps[1..], m)
  {
  }

  lemma {:induction false} KeepConcat(a: seq<nat>, b: seq<nat>, m: nat)
    ensures Keep(a + b, m) == Keep(a, m) + Keep(b, m)
  {
    hide Keep;
    KeepUnfold(a, m);
    if a == [] {
      assert a + b == b;
    } else {
      var s, tail := a + b, a[1..];
      assert s[0] == a[0] && s[1..] == tail + b;
      KeepConcat(tail, b, m);
      KeepUnfold(s, m);
      KeepUnfold(a, m);
    }
  }

  /** No code point in between, no difference. */
  lemma {:induction false} KeepSame(cps: seq<nat>, n: nat, m: nat)
    requires n <= m && forall i: nat | i < |cps| :: !(n <= cps[i] < m)
    ensures Keep(cps, n) == Keep(cps, m)
  {
    if cps != [] {
      KeepSame(cps[1..], n, m);
    }
  }

  lemma {:induction false} KeepsAll(cps: seq<nat>, m: nat)
    requires |Keep(cps, m)| == |cps|
    ensures Keep(cps, m) == cps && forall i: nat | i < |cps| :: cps[i] < m
  {
    if cps != [] {
      KeepsAll(cps[1..], m);
    }
  }

  lemma {:induction false} KeepMisses(cps: seq<nat>, m: nat)
    requires |Keep(cps, m)| < |cps|
    ensures exists i: nat | i < |cps| :: cps[i] >= m
  {
    if cps[0] < m {
      KeepMisses(cps[1..], m);
      var i: nat :| i < |cps[1..]| && cps[1..][i] >= m;
      assert cps[i + 1] >= m;
    }
  }

  /** What has been handled when all code points below `n` and those equal to `n` before
      position `j` have been. */
  function Handled(cps: seq<nat>, n: nat, j: nat): seq<nat>
    requires j <= |cps|
  {
    Keep(cps[..j], n + 1) + Keep(cps[j..], n)
  }

  /** The decoder's state `st`, `delta` steps before the encoder's position: the code point `n`
      at the place after those handled before position `j`. */
  ghost predicate Tracks(cps: seq<nat>, n: nat, j: nat, delta: nat, st: State) {
    && j <= |cps|
    && st.out == Handled(cps, n, j)
    && st.n * (|st.out| + 1) + st.i + delta == n * (|st.out| + 1) + |Keep(cps[..j], n + 1)|
  }

  ghost function Steps(x: nat, y: nat): nat {
    x * y
  }

  /** The start of a pass: every code point below `m` has been handled. */
  lemma NextPass(cps: seq<nat>, n: nat, m: nat, delta: nat, step: nat, st: State)
    requires Tracks(cps, n, 0, delta, st) && n <= m && step == Steps(m - n, |st.out| + 1)
    requires forall i: nat | i < |cps| :: !(n <= cps[i] < m)
    ensures Tracks(cps, m, 0, delta + step, st)
  {
    KeepSame(cps, n, m);
    assert cps[0..] == cps && cps[..0] == [];
    MulSub(m, n, |st.out| + 1);
  }

  lemma MulSub(m: int, n: int, p: int)
    ensures (m - n) * p == m * p - n * p
  {
  }

  /** The end of a pass. */
  lemma EndPass(cps: seq<nat>, n: nat, delta: nat, st: State)
    requires Tracks(cps, n, |cps|, delta, st)
    ensures Tracks(cps, n + 1, 0, delta + 1, st)
  {
    assert cps[..|cps|] == cps && cps[|cps|..] == [] && cps[..0] == [] && cps[0..] == cps;
    var h := |st.out|;
    assert (n + 1) * (h + 1) == n * (h + 1) + h + 1;
  }

  /** Stepping over a code point that is not `n`. */
  lemma SkipPoint(cps: seq<nat>, n: nat, j: nat, delta: nat, st: State)
    requires Tracks(cps, n, j, delta, st) && j < |cps| && cps[j] != n
    ensures Tracks(cps, n, j + 1, if cps[j] < n then delta + 1 else delta, st)
  {
    StepHandled(cps, n, j);
  }

  lemma StepHandled(cps: seq<nat>, n: nat, j: nat)
    requires j < |cps|
    ensures Keep(cps[..j + 1], n + 1) == Keep(cps[..j], n + 1) + (if cps[j] <= n then [cps[j]] else [])
    ensures Keep(cps[j..], n) == (if cps[j] < n then [cps[j]] else []) + Keep(cps[j + 1..], n)
  {
    assert cps[..j + 1] == cps[..j] + [cps[j]];
    KeepConcat(cps[..j], [cps[j]], n + 1);
    assert Keep([cps[j]], n + 1) == if cps[j] <= n then [cps[j]] else [] by {
      assert [cps[j]][1..] == [];
    }
    assert cps[j..][1..] == cps[j + 1..];
  }

  /** Emitting `delta` for the code point at `j`, which is `n`: the decoder inserts it where it
      belongs. */
  lemma InsertPoint(cps: seq<nat>, n: nat, j: nat, delta: nat, st: State)
    requires Tracks(cps, n, j, delta, st) && j < |cps| && cps[j] == n
    ensures var next := Inserted(st, st.i + delta);
      && Round(st, VarInt(delta, 36, st.bias)) == Some((next, []))
      && Tracks(cps, n, j + 1, 0, next) && next.i > 0 && next.n == n
      && next.bias == Adapt(delta, |st.out| + 1, st.i == 0) && |next.out| == |st.out| + 1
  {
    hide ReadInt, Adapt, VarInt, Keep;
    ReadsVarInt(delta, st.i, 1, 36, st.bias);
    StepHandled(cps, n, j);
    var before := Keep(cps[..j], n + 1);
    var points := |st.out| + 1;
    DivideUp(st.n, n, points, |before|, st.i + delta);
    var next := Inserted(st, st.i + delta);
    assert st.out[..|before|] == before && st.out[|before|..] == Keep(cps[j..], n);
    assert n * (points + 1) == next.n * (points + 1);
  }

  lemma DivideUp(n0: nat, n: nat, points: nat, at: nat, i: nat)
    requires at < points && n0 * points + i == n * points + at
    ensures i / points == n - n0 && i % points == at
  {
    assert i == (n - n0) * points + at;
    ModUnique(i, points, n - n0, at);
  }
}
