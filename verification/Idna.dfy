/**
  idna.c: the domain name encoder of libuv, against the decoder of RFC 3492.

  A label is a stretch of a byte buffer.  `cps` names in specifications the points that the
  decoder reads there; the encoder itself only sees the bytes.
*/
module Idna {
  import opened Bits
  import opened Collections
  import opened Punycode
  import opened UvErrors
  import T = Utf8Text
  import U = Utf8

  /** The decoder reads the code points `cps` between `s` and `se`. */
  ghost predicate IsLabel(buf: seq<byte>, s: nat, se: nat, cps: seq<nat>) {
    T.Readable(buf, s, se) && T.Points(buf, s, se) == cps && T.AllScalar(cps)
  }

  /** The cursor is before the `j`-th of the points `cps`. */
  ghost predicate Before(buf: seq<byte>, s: nat, se: nat, cps: seq<nat>, j: nat, p: nat) {
    && T.Readable(buf, s, se) && T.Points(buf, s, se) == cps
    && j <= |cps| && p == T.At(buf, s, se, j)
  }

  lemma LabelStart(buf: seq<byte>, s: nat, se: nat, cps: seq<nat>)
    requires IsLabel(buf, s, se, cps)
    ensures Before(buf, s, se, cps, 0, s) && T.AllScalar(cps)
  {
  }

  lemma PointsStart(buf: seq<byte>, s: nat, se: nat)
    requires T.Readable(buf, s, se)
    ensures Before(buf, s, se, T.Points(buf, s, se), 0, s)
    ensures IsLabel(buf, s, se, T.Points(buf, s, se)) <==> T.AllScalar(T.Points(buf, s, se))
  {
    hide T.Points, T.AllScalar;
  }

  /** The head of a `foreach_codepoint` loop: decode the next code point, and go on while that
      stays within the label. */
  method Next(buf: seq<byte>, p: nat, se: nat, ghost s: nat, ghost cps: seq<nat>, ghost j: nat)
    returns (more: bool, c: nat, q: nat)
    requires Before(buf, s, se, cps, j, p)
    ensures more <==> j < |cps|
    ensures more ==> c == cps[j] && Before(buf, s, se, cps, j + 1, q)
  {
    hide U.Span, U.Point, T.Points, T.At;
    T.PointAt(buf, s, se, j);
    q, c := p, 0;
    if p <= se {
      c, q := U.Decode1(buf, p, se);
    }
    more := q <= se;
  }

  /** The output buffer: everything that was put is there, up to where the room ended. */
  class Output {
    const buf: array<byte>
    const de: nat
    var d: nat
    ghost const start: nat
    ghost const initial: seq<byte>
    ghost var full: seq<byte>         // everything that was put

    ghost predicate Valid()
      reads this, buf
    {
      && start <= d <= de <= buf.Length == |initial|
      && d - start == (if |full| <= de - start then |full| else de - start)
      && buf[..] == initial[..start] + full[..d - start] + initial[d..]
    }

    constructor (b: array<byte>, at: nat, end: nat)
      requires at <= end <= b.Length
      ensures Valid() && full == [] && buf == b && start == at && de == end && initial == b[..]
    {
      buf, d, de, start, initial, full := b, at, end, at, b[..], [];
    }

    /** `if (*d < de) *(*d)++ = x`. */
    method Put(x: byte)
      requires Valid()
      modifies `d, `full, buf
      ensures Valid() && full == old(full) + [x]
    {
      if d < de {
        buf[d] := x;
        d := d + 1;
      }
      full := full + [x];
    }
  }

  /** The first loop of `uv__idna_toascii_label`: count the ASCII characters and the others, and
      give up where the decoder does. */
  method CountPoints(buf: seq<byte>, s: nat, se: nat) returns (bad: bool, h: nat, todo: nat)
    requires T.Readable(buf, s, se)
    ensures bad <==> U.INVALID in T.Points(buf, s, se)
    ensures !bad ==> IsLabel(buf, s, se, T.Points(buf, s, se))
    ensures !bad ==> h == |Keep(T.Points(buf, s, se), 128)| && todo == |T.Points(buf, s, se)| - h
  {
    hide IsLabel, Keep, Before, T.Readable, T.Points;
    ghost var cps := T.Points(buf, s, se);
    PointsStart(buf, s, se);
    KeepNone(128);
    bad, h, todo := false, 0, 0;
    var p := s;
    ghost var j := 0;
    while true
      invariant j <= |cps| && Before(buf, s, se, cps, j, p) && U.INVALID !in cps[..j]
      invariant h == |Keep(cps[..j], 128)| && todo == j - h
      decreases |cps| - j
    {
      var more, c;
      more, c, p := Next(buf, p, se, s, cps, j);
      if !more {
        break;
      }
      KeepStep(cps, j, 128);
      if c < 128 {
        h := h + 1;
      } else if c == U.INVALID {
        return true, h, todo;
      } else {
        todo := todo + 1;
      }
      j := j + 1;
    }
    assert cps[..j] == cps;
    T.PointsAreScalar(buf, s, se);
  }

  lemma KeepNone(m: nat)
    ensures Keep([], m) == []
  {
  }

  lemma KeepStep(cps: seq<nat>, j: nat, m: nat)
    requires j < |cps|
    ensures Keep(cps[..j + 1], m) == Keep(cps[..j], m) + (if cps[j] < m then [cps[j]] else [])
  {
    assert cps[..j + 1] == cps[..j] + [cps[j]];
    KeepConcat(cps[..j], [cps[j]], m);
    assert [cps[j]][1..] == [];
  }

  /** The second loop: copy the ASCII characters, `h` in number. */
  method CopyAscii(buf: seq<byte>, s: nat, se: nat, h: nat, out: Output, ghost cps: seq<nat>)
    requires IsLabel(buf, s, se, cps) && h == |Keep(cps, 128)| && out.Valid()
    modifies out`d, out`full, out.buf
    ensures out.Valid() && out.full == old(out.full) + Keep(cps, 128)
  {
    hide IsLabel, Keep, Before;
    assert T.AllScalar(cps) && Before(buf, s, se, cps, 0, s) by { LabelStart(buf, s, se, cps); }
    KeepNone(128);
    var x: nat, p := 0, s;
    ghost var j := 0;
    while true
      invariant j <= |cps| && Before(buf, s, se, cps, j, p) && out.Valid()
      invariant out.full == old(out.full) + Keep(cps[..j], 128) && x == |Keep(cps[..j], 128)|
      decreases |cps| - j
    {
      var more, c;
      more, c, p := Next(buf, p, se, s, cps, j);
      if !more {
        assert cps[..j] == cps;
        break;
      }
      KeepStep(cps, j, 128);
      j := j + 1;
      if c > 127 {
        continue;
      }
      out.Put(c);
      x := x + 1;
      if x == h {
        KeepConcat(cps[..j], cps[j..], 128);
        assert cps[..j] + cps[j..] == cps;
        break;
      }
    }
  }

  /** The digits of `delta`: the loop over `k` and the last digit after it. */
  method EmitInt(delta: nat, bias: nat, out: Output)
    requires out.Valid() && delta < 0x1_0000_0000
    modifies out`d, out`full, out.buf
    ensures out.Valid() && out.full == old(out.full) + VarInt(delta, 36, bias)
  {
    hide VarInt, Digit, HighPart, LowDigit, Output.Valid, Pow2;
    var k: nat, q: nat := 36, delta;
    ghost var count: nat := 0;
    Pow2Values();
    while true
      invariant out.Valid() && k == 36 + 36 * count && count <= 32 && q < Pow2(32 - count)
      invariant out.full + VarInt(q, k, bias) == old(out.full) + VarInt(delta, 36, bias)
      decreases q
    {
      var t := 1;
      if k > bias {
        t := k - bias;
      }
      if t > 26 {
        t := 26;
      }
      VarIntStep(q, k, bias);
      if q < t {
        break;
      }
      var x := q - t;
      var y := 36 - t;
      Quotient(q, t, 32 - count);
      q := x / y;
      t := t + x % y;
      out.Put(Digit(t));
      k := Word32(k + 36);
      count := count + 1;
    }
    out.Put(Digit(q));
  }

  lemma VarIntStep(q: nat, k: nat, bias: nat)
    ensures var t := Threshold(k, bias);
      if q < t then VarInt(q, k, bias) == [Digit(q)]
      else VarInt(q, k, bias) == [Digit(LowDigit(q, t))] + VarInt(HighPart(q, t), k + 36, bias)
  {
  }

  lemma Quotient(q: nat, t: nat, bits: nat)
    requires 1 <= t <= 26 && t <= q < Pow2(bits)
    ensures bits > 0 && HighPart(q, t) < Pow2(bits - 1)
    ensures (q - t) / (36 - t) == HighPart(q, t) < q && t + (q - t) % (36 - t) == LowDigit(q, t)
  {
  }

  /** The bias adaptation between two strings of digits; `h` has been incremented. */
  method AdaptBias(was: nat, h: nat, first: bool) returns (bias: nat)
    requires h > 0 && was < 0x1_0000_0000
    ensures bias == Adapt(was, h, first)
  {
    hide AdaptLoop, Adapt, Spread;
    var delta: nat := was / 2;
    if first {
      delta := delta / 350;
    }
    AdaptStarts(was, h, first);
    Halved(delta, h);
    delta := Word32(delta + delta / h);
    bias := 0;
    while delta > 35 * 26 / 2
      invariant AdaptLoop(delta, bias) == Adapt(was, h, first)
      decreases delta
    {
      AdaptStep(delta, bias);
      delta := delta / 35;
      bias := bias + 36;
    }
    AdaptStep(delta, bias);
    bias := bias + 36 * delta / (delta + 38);
  }

  lemma AdaptStarts(was: nat, h: nat, first: bool)
    requires h > 0
    ensures var delta := if first then was / 2 / 350 else was / 2; Adapt(was, h, first) == AdaptLoop(Spread(delta, h), 0)
  {
    hide AdaptLoop, Spread;
    assert was / 2 / 350 == was / 700;
  }

  lemma Halved(delta: nat, h: nat)
    requires h > 0 && delta < 0x8000_0000
    ensures delta + delta / h == Spread(delta, h) < 0x1_0000_0000
  {
    var q := delta / h;
    assert delta == q * h + delta % h;
    MulAtMost(1, h, q);
  }

  lemma AdaptStep(delta: nat, bias: nat)
    ensures AdaptLoop(delta, bias) ==
      if delta > 35 * 26 / 2 then AdaptLoop(delta / 35, bias + 36) else bias + 36 * delta / (delta + 38)
  {
  }

  /** The loop that looks for the least code point not below `n`. */
  method Least(buf: seq<byte>, s: nat, se: nat, n: nat, ghost cps: seq<nat>) returns (m: nat)
    requires IsLabel(buf, s, se, cps) && |Keep(cps, n)| < |cps|
    ensures n <= m <= 0x10FFFF && m in cps
    ensures forall i: nat | i < |cps| :: !(n <= cps[i] < m)
  {
    hide IsLabel, Keep, Before;
    assert T.AllScalar(cps) && Before(buf, s, se, cps, 0, s) by { LabelStart(buf, s, se, cps); }
    KeepMisses(cps, n);
    m := 0xFFFF_FFFF;
    var p := s;
    ghost var j := 0;
    while true
      invariant j <= |cps| && Before(buf, s, se, cps, j, p)
      invariant m == 0xFFFF_FFFF || (m in cps && m >= n)
      invariant forall i: nat | i < j && cps[i] >= n :: m <= cps[i]
      decreases |cps| - j
    {
      var more, c;
      more, c, p := Next(buf, p, se, s, cps, j);
      if !more {
        break;
      }
      if c >= n {
        if c < m {
          m := c;
        }
      }
      j := j + 1;
    }
  }

  /** Where the decoder starts on the digits: it has the ASCII characters. */
  ghost function Start(cps: seq<nat>): State {
    State(128, 0, 72, Keep(cps, 128))
  }

  /** What follows `base` in the output is digits that take the decoder to `st`. */
  ghost predicate Emitted(base: seq<byte>, full: seq<byte>, cps: seq<nat>, st: State) {
    && base <= full
    && Rounds(Start(cps), full[|base|..]) == Some(st)
    && AreDigits(full[|base|..])
  }

  /** The encoder's variables agree with the decoder state that its output leads to. */
  ghost predicate InStep(cps: seq<nat>, n: nat, j: nat, delta: nat, bias: nat, h: nat, todo: nat, first: bool, st: State) {
    && Tracks(cps, n, j, delta, st)
    && bias == st.bias && h == |st.out| && todo == |cps| - h && (first <==> st.i == 0)
  }

  lemma EmittedMore(base: seq<byte>, full: seq<byte>, cps: seq<nat>, st: State, piece: seq<byte>, next: State)
    requires Emitted(base, full, cps, st) && AreDigits(piece) && Round(st, piece) == Some((next, []))
    ensures Emitted(base, full + piece, cps, next)
  {
    hide Round, Rounds;
    var text := full[|base|..];
    assert (full + piece)[|base|..] == text + piece;
    RoundsAppend(Start(cps), text, st, piece, next);
  }

  /** Emitting `delta` for the code point `n` at position `j`. */
  lemma PointEmitted(base: seq<byte>, full: seq<byte>, cps: seq<nat>, n: nat, j: nat, delta: nat, bias: nat,
                     h: nat, todo: nat, first: bool, st: State) returns (next: State)
    requires InStep(cps, n, j, delta, bias, h, todo, first, st) && j < |cps| && cps[j] == n
    requires Emitted(base, full, cps, st)
    ensures todo > 0 && next.n == n
    ensures Emitted(base, full + VarInt(delta, 36, bias), cps, next)
    ensures InStep(cps, n, j + 1, 0, Adapt(delta, h + 1, first), h + 1, todo - 1, false, next)
  {
    hide Emitted, Tracks, Round, VarInt, Adapt, Inserted;
    next := Inserted(st, st.i + delta);
    InsertPoint(cps, n, j, delta, st);
    VarIntIsDigits(delta, 36, bias);
    EmittedMore(base, full, cps, st, VarInt(delta, 36, bias), next);
    HandledSize(cps, n, j + 1, 0, next);
  }

  lemma HandledSize(cps: seq<nat>, n: nat, j: nat, delta: nat, st: State)
    requires Tracks(cps, n, j, delta, st)
    ensures |st.out| <= |cps| && |Keep(cps[..j], n + 1)| <= |st.out|
  {
    hide Keep;
  }

  /** How far the decoder can be behind. */
  lemma DeltaBound(cps: seq<nat>, n: nat, j: nat, delta: nat, st: State)
    requires Tracks(cps, n, j, delta, st) && n <= 0x10FFFF
    ensures delta < 0x110000 * (|cps| + 1)
    ensures st.n == n ==> delta <= |cps|
  {
    hide Keep;
    HandledSize(cps, n, j, delta, st);
    var h := |st.out|;
    assert 0 <= st.n * (h + 1);
    MulAtMost(n, 0x10FFFF, h + 1);
  }

  /** One pass over the label: emit a number for every code point that is `n`. */
  method Pass(buf: seq<byte>, s: nat, se: nat, n: nat, delta0: nat, bias0: nat, h0: nat, todo0: nat, first0: bool, out: Output,
              ghost cps: seq<nat>, ghost base: seq<byte>, ghost st0: State)
    returns (overflow: bool, delta: nat, bias: nat, h: nat, todo: nat, first: bool, ghost st: State)
    requires IsLabel(buf, s, se, cps) && n <= 0x10FFFF && n in cps && |cps| < 0x8000_0000
    requires InStep(cps, n, 0, delta0, bias0, h0, todo0, first0, st0) && delta0 < 0x1_0000_0000
    requires out.Valid() && Emitted(base, out.full, cps, st0)
    modifies out`d, out`full, out.buf
    ensures out.Valid()
    ensures overflow ==> 0x110000 * (|cps| + 1) >= 0x1_0000_0000
    ensures !overflow ==>
      && InStep(cps, n, |cps|, delta, bias, h, todo, first, st) && delta <= |cps| && todo < todo0
      && Emitted(base, out.full, cps, st)
  {
    hide IsLabel, Before, Emitted, Tracks, VarInt, Adapt, Output.Valid;
    assert T.AllScalar(cps) && Before(buf, s, se, cps, 0, s) by { LabelStart(buf, s, se, cps); }
    overflow, delta, bias, h, todo, first, st := false, delta0, bias0, h0, todo0, first0, st0;
    var p := s;
    ghost var j := 0;
    while true
      invariant j <= |cps| && Before(buf, s, se, cps, j, p) && out.Valid()
      invariant InStep(cps, n, j, delta, bias, h, todo, first, st) && delta < 0x1_0000_0000
      invariant Emitted(base, out.full, cps, st)
      invariant todo <= todo0 && ((forall i: nat | i < j :: cps[i] != n) || (st.n == n && todo < todo0))
      decreases |cps| - j
    {
      var more, c;
      more, c, p := Next(buf, p, se, s, cps, j);
      if !more {
        assert cps[..j] == cps;
        break;
      }
      if c != n {
        SkipPoint(cps, n, j, delta, st);
        DeltaBound(cps, n, j + 1, if c < n then delta + 1 else delta, st);
      }
      if c < n {
        delta := Word32(delta + 1);
        if delta == 0 {
          overflow := true;
          return;
        }
      }
      if c != n {
        j := j + 1;
        continue;
      }
      ghost var next := PointEmitted(base, out.full, cps, n, j, delta, bias, h, todo, first, st);
      EmitInt(delta, bias, out);
      h := h + 1;
      bias := AdaptBias(delta, h, first);
      first := false;
      delta := 0;
      todo := todo - 1;
      st := next;
      j := j + 1;
    }
    DeltaBound(cps, n, |cps|, delta, st);
  }

  // ----- a whole label -----

  ghost predicate IsAscii(cps: seq<nat>) {
    forall i: nat | i < |cps| :: cps[i] < 128
  }

  /** The encoded label stands for the code points `cps`: an ASCII label is unchanged, any other one
      is "xn--" followed by what Punycode decodes to `cps`, in lower case up to the capital letters
      of the label. */
  ghost predicate StandsFor(text: seq<byte>, cps: seq<nat>) {
    T.AllScalar(cps) &&
    if IsAscii(cps) then text == cps
    else Ascii("xn--") <= text && Decode(text[4..]) == Some(cps) && CapitalsFrom(text, cps)
  }

  ghost predicate CapitalsFrom(text: seq<byte>, cps: seq<nat>) {
    forall k: nat | k < |text| && 'A' as int <= text[k] <= 'Z' as int :: text[k] in cps
  }

  ghost function Separator(cps: seq<nat>): seq<byte> {
    if Keep(cps, 128) == [] then [] else [HYPHEN]
  }

  lemma {:induction false} KeepBelow(cps: seq<nat>, m: nat)
    ensures forall i: nat | i < |Keep(cps, m)| :: Keep(cps, m)[i] < m
  {
    if cps != [] {
      KeepBelow(cps[1..], m);
    }
  }

  lemma {:induction false} KeepIn(cps: seq<nat>, m: nat)
    ensures forall i: nat | i < |Keep(cps, m)| :: Keep(cps, m)[i] in cps
  {
    if cps != [] {
      KeepIn(cps[1..], m);
    }
  }

  lemma CapitalsKept(cps: seq<nat>, digits: seq<byte>)
    requires IsText(Keep(cps, 128)) && AreDigits(digits)
    ensures CapitalsFrom(Ascii("xn--") + (Keep(cps, 128) + Separator(cps) + digits), cps)
  {
    hide Keep;
    KeepIn(cps, 128);
  }

  /** The ASCII characters, the separator and the digits decode to the label. */
  lemma DecodesBack(cps: seq<nat>, digits: seq<byte>, st: State)
    requires Rounds(Start(cps), digits) == Some(st) && st.out == cps && AreDigits(digits)
    ensures IsText(Keep(cps, 128)) && Decode(Keep(cps, 128) + Separator(cps) + digits) == Some(cps)
  {
    hide Rounds, Keep, LastHyphen;
    KeepBelow(cps, 128);
    var basic: seq<byte> := Keep(cps, 128);
    var text := basic + Separator(cps) + digits;
    if basic == [] {
      assert text == digits;
      NoHyphenAtAll(text, |text|);
    } else {
      LastHyphenIs(text, |basic|, |text|);
      assert text[..|basic|] == basic && text[|basic| + 1..] == digits;
    }
  }

  ghost predicate IsText(s: seq<nat>) {
    forall i: nat | i < |s| :: s[i] < 256
  }

  lemma PassOpens(cps: seq<nat>, n: nat, delta: nat, st: State)
    requires Tracks(cps, n, 0, delta, st)
    ensures st.out == Keep(cps, n)
  {
    assert cps[..0] == [] && cps[0..] == cps;
  }

  lemma FitsIff(x: nat, y: nat, room: nat)
    requires y > 0
    ensures x > room / y <==> x * y > room
  {
    var q := room / y;
    assert room == q * y + room % y;
    if x > q {
      MulAtMost(q + 1, x, y);
    } else {
      MulAtMost(x, q, y);
    }
  }

  lemma Finished(cps: seq<nat>, n: nat, delta: nat, st: State, before: seq<byte>, base: seq<byte>, full: seq<byte>)
    requires Tracks(cps, n, 0, delta, st) && |st.out| == |cps| && Emitted(base, full, cps, st)
    requires IsText(Keep(cps, 128)) && base == before + Ascii("xn--") + Keep(cps, 128) + Separator(cps)
    requires !IsAscii(cps) && T.AllScalar(cps)
    ensures before <= full && StandsFor(full[|before|..], cps)
  {
    hide Keep, Rounds, Decode, Tracks, Separator, AreDigits, CapitalsFrom;
    PassOpens(cps, n, delta, st);
    KeepsAll(cps, n);
    var digits := full[|base|..];
    DecodesBack(cps, digits, st);
    var text := full[|before|..];
    assert full == base + digits;
    CapitalsKept(cps, digits);
    assert text == Ascii("xn--") + (Keep(cps, 128) + Separator(cps) + digits);
    assert text[4..] == Keep(cps, 128) + Separator(cps) + digits;
  }

  /** Moving on to the next code point, guarded against overflow. */
  method Advance(delta: nat, x: nat, y: nat) returns (overflow: bool, d: nat)
    requires delta < 0x1_0000_0000 && y > 0
    ensures overflow <==> delta + Steps(x, y) >= 0x1_0000_0000
    ensures d == if overflow then delta else delta + Steps(x, y)
  {
    FitsIff(x, y, 0xFFFF_FFFF - delta);
    if x > (0xFFFF_FFFF - delta) / y {
      return true, delta;
    }
    return false, Word32(delta + x * y);
  }

  /** The rounds of the encoder: as long as code points are left, find the least one and emit
      its occurrences. */
  method EmitRounds(buf: seq<byte>, s: nat, se: nat, h0: nat, todo0: nat, out: Output, ghost cps: seq<nat>)
    returns (rc: int, ghost n: nat, ghost delta: nat, ghost st: State)
    requires IsLabel(buf, s, se, cps) && |cps| < 0x8000_0000 && out.Valid()
    requires h0 == |Keep(cps, 128)| && todo0 == |cps| - h0
    modifies out`d, out`full, out.buf
    ensures out.Valid() && rc <= 0
    ensures rc < 0 ==> rc == UV_E2BIG && 0x110000 * (|cps| + 1) >= 0x1_0000_0000
    ensures rc == 0 ==> Tracks(cps, n, 0, delta, st) && |st.out| == |cps| && Emitted(old(out.full), out.full, cps, st)
  {
    hide IsLabel, Emitted, Tracks, Keep, Output.Valid, Steps;
    ghost var base := out.full;
    var h, todo := h0, todo0;
    var next, bias, d, first := 128, 72, 0, true;
    st := Start(cps);
    Opening(cps, base);
    while todo > 0
      invariant out.Valid() && next <= 0x110000 && 0 <= d < 0x1_0000_0000
      invariant InStep(cps, next, 0, d, bias, h, todo, first, st) && Emitted(base, out.full, cps, st)
      decreases todo
    {
      PassOpens(cps, next, d, st);
      var m := Least(buf, s, se, next, cps);
      NextPass(cps, next, m, d, Steps(m - next, h + 1), st);
      DeltaBound(cps, m, 0, d + Steps(m - next, h + 1), st);
      var overflow;
      overflow, d := Advance(d, m - next, h + 1);
      if overflow {
        rc, n, delta := UV_E2BIG, next, d;
        return;
      }
      next := m;
      overflow, d, bias, h, todo, first, st := Pass(buf, s, se, next, d, bias, h, todo, first, out, cps, base, st);
      if overflow {
        rc, n, delta := UV_E2BIG, next, d;
        return;
      }
      EndPass(cps, next, d, st);
      d := Word32(d + 1);
      next := Word32(next + 1);
    }
    rc, n, delta := 0, next, d;
  }

  lemma Opening(cps: seq<nat>, base: seq<byte>)
    ensures InStep(cps, 128, 0, 0, 72, |Keep(cps, 128)|, |cps| - |Keep(cps, 128)|, true, Start(cps))
    ensures Emitted(base, base, cps, Start(cps))
  {
    assert cps[..0] == [] && cps[0..] == cps;
  }

  /** Everything after the count. */
  method EncodePoints(buf: seq<byte>, s: nat, se: nat, h: nat, todo: nat, out: Output, ghost cps: seq<nat>) returns (rc: int)
    requires IsLabel(buf, s, se, cps) && |cps| < 0x8000_0000 && out.Valid()
    requires h == |Keep(cps, 128)| && todo == |cps| - h
    modifies out`d, out`full, out.buf
    ensures out.Valid()
    ensures rc < 0 ==> rc == UV_E2BIG && 0x110000 * (|cps| + 1) >= 0x1_0000_0000
    ensures rc >= 0 ==> old(out.full) <= out.full && StandsFor(out.full[|old(out.full)|..], cps)
    ensures rc >= 0 ==> rc == if IsAscii(cps) then |cps| else 0
  {
    hide IsLabel, Emitted, Tracks, Keep, Output.Valid, Decode, T.AllScalar;
    assert T.AllScalar(cps) by { LabelStart(buf, s, se, cps); }
    ghost var before := out.full;
    if todo > 0 {
      out.Put(120);     // x
      out.Put(110);     // n
      out.Put(HYPHEN);
      out.Put(HYPHEN);
      assert out.full == before + Ascii("xn--");
    }
    CopyAscii(buf, s, se, h, out, cps);
    if todo == 0 {
      KeepsAll(cps, 128);
      return h;
    }
    if h > 0 {
      out.Put(HYPHEN);
    }
    KeepMisses(cps, 128);
    KeepBelow(cps, 128);
    assert out.full == before + Ascii("xn--") + Keep(cps, 128) + Separator(cps);
    ghost var base := out.full;
    ghost var n, delta, st;
    rc, n, delta, st := EmitRounds(buf, s, se, h, todo, out, cps);
    if rc == 0 {
      Finished(cps, n, delta, st, before, base, out.full);
    }
  }

  /** `uv__idna_toascii_label`: it refuses the label exactly when the decoder refuses a point of it,
      and fails otherwise only when a label of several thousand code points makes `delta` overflow;
      else it puts out text that stands for the label. */
  method ToAsciiLabel(buf: seq<byte>, s: nat, se: nat, out: Output) returns (rc: int)
    requires T.Readable(buf, s, se) && se - s < 0x8000_0000 && out.Valid()
    modifies out`d, out`full, out.buf
    ensures out.Valid()
    ensures var cps := T.Points(buf, s, se);
      && (rc == UV_EINVAL <==> U.INVALID in cps) && (rc == UV_EINVAL ==> out.full == old(out.full))
      && (rc < 0 && rc != UV_EINVAL ==> rc == UV_E2BIG && 0x110000 * (|cps| + 1) >= 0x1_0000_0000)
      && (rc >= 0 ==> old(out.full) <= out.full && StandsFor(out.full[|old(out.full)|..], cps))
      && (rc >= 0 ==> rc == if IsAscii(cps) then |cps| else 0)
  {
    hide IsLabel, Keep, Output.Valid, StandsFor, T.Readable, T.Points;
    var bad, h, todo := CountPoints(buf, s, se);
    rc := UV_EINVAL;
    if !bad {
      rc := EncodePoints(buf, s, se, h, todo, out, T.Points(buf, s, se));
    }
  }

  // ----- a whole domain name -----

  /** The full stops of IDNA. */
  predicate IsSeparator(c: nat) {
    c == 46 || c == 0x3002 || c == 0xFF0E || c == 0xFF61
  }

  /** The labels that a separator ends, and what follows the last separator. */
  ghost function Closed(cps: seq<nat>): seq<seq<nat>> {
    if cps == [] then []
    else
      var most, c := cps[..|cps| - 1], cps[|cps| - 1];
      if IsSeparator(c) then Closed(most) + [Open(most)] else Closed(most)
  }

  ghost function Open(cps: seq<nat>): (r: seq<nat>)
    ensures |r| <= |cps| && cps[|cps| - |r|..] == r
  {
    if cps == [] then []
    else
      var most, c := cps[..|cps| - 1], cps[|cps| - 1];
      if IsSeparator(c) then [] else Open(most) + [c]
  }

  /** No label contains one of the four full stops of IDNA: U+002E, U+3002, U+FF0E, U+FF61. */
  lemma {:induction false} LabelsHaveNoStop(cps: seq<nat>, c: nat)
    requires c == 0x2E || c == 0x3002 || c == 0xFF0E || c == 0xFF61
    ensures c !in Open(cps) && forall i: nat | i < |Closed(cps)| :: c !in Closed(cps)[i]
  {
    if cps != [] {
      LabelsHaveNoStop(cps[..|cps| - 1], c);
    }
  }

  /** Every label followed by its stop. */
  ghost function Interleave<T>(labels: seq<seq<T>>, stops: seq<T>): seq<T>
    requires |labels| == |stops|
  {
    if labels == [] then []
    else
      var k := |labels| - 1;
      Interleave(labels[..k], stops[..k]) + labels[k] + [stops[k]]
  }

  /** The labels in order, with one of the four full stops behind each but the last, are the name. */
  lemma {:induction false} LabelsAreName(cps: seq<nat>) returns (stops: seq<nat>)
    ensures |stops| == |Closed(cps)| && cps == Interleave(Closed(cps), stops) + Open(cps)
    ensures forall i: nat | i < |stops| ::
      stops[i] == 0x2E || stops[i] == 0x3002 || stops[i] == 0xFF0E || stops[i] == 0xFF61
  {
    stops := [];
    if cps != [] {
      var k, c := |cps| - 1, cps[|cps| - 1];
      stops := LabelsAreName(cps[..k]);
      assert cps == cps[..k] + [c];
      if IsSeparator(c) {
        InterleaveSnoc(Closed(cps[..k]), stops, Open(cps[..k]), c);
        stops := stops + [c];
      }
    }
  }

  lemma InterleaveSnoc<T>(labels: seq<seq<T>>, stops: seq<T>, piece: seq<T>, stop: T)
    requires |labels| == |stops|
    ensures Interleave(labels + [piece], stops + [stop]) == Interleave(labels, stops) + piece + [stop]
  {
    var k := |labels|;
    assert (labels + [piece])[..k] == labels && (stops + [stop])[..k] == stops;
  }

  /** Position of the first code point after the last separator before position `j`. */
  ghost function OpenStart(cps: seq<nat>, j: nat): (i: nat)
    requires j <= |cps|
    ensures i <= j
  {
    j - |Open(cps[..j])|
  }

  /** Each text stands for the label at its place. */
  ghost predicate AllStandFor(texts: seq<seq<byte>>, labels: seq<seq<nat>>) {
    && |texts| == |labels|
    && forall i: nat | i < |labels| :: StandsFor(texts[i], labels[i])
  }

  /** Every label followed by a full stop. */
  ghost function Dotted(texts: seq<seq<byte>>): seq<byte> {
    if texts == [] then [] else Dotted(texts[..|texts| - 1]) + texts[|texts| - 1] + [46]
  }

  lemma {:induction false} DottedIs(texts: seq<seq<byte>>)
    ensures Dotted(texts) == Interleave(texts, seq(|texts|, _ => '.' as int))
  {
    if texts != [] {
      var k := |texts| - 1;
      DottedIs(texts[..k]);
      assert seq(|texts|, _ => '.' as int)[..k] == seq(k, _ => '.' as int);
    }
  }

  lemma OpenIs(cps: seq<nat>, j: nat)
    requires j < |cps|
    ensures var c, most := cps[j], cps[..j];
      && Closed(cps[..j + 1]) == (if IsSeparator(c) then Closed(most) + [Open(most)] else Closed(most))
      && Open(cps[..j + 1]) == (if IsSeparator(c) then [] else Open(most) + [c])
      && OpenStart(cps, j + 1) == (if IsSeparator(c) then j + 1 else OpenStart(cps, j))
  {
    assert cps[..j + 1][..j] == cps[..j];
  }

  lemma AddText(texts: seq<seq<byte>>, labels: seq<seq<nat>>, text: seq<byte>, piece: seq<nat>)
    requires AllStandFor(texts, labels) && StandsFor(text, piece)
    ensures AllStandFor(texts + [text], labels + [piece])
    ensures Dotted(texts + [text]) == Dotted(texts) + text + [46]
  {
    hide StandsFor;
    assert (texts + [text])[..|texts|] == texts;
  }

  lemma NothingYet(cps: seq<nat>)
    ensures Closed(cps[..0]) == [] && OpenStart(cps, 0) == 0 && Dotted([]) == [] && AllStandFor([], [])
  {
    assert cps[..0] == [];
  }

  /** The points that `uv__idna_toascii` splits into labels.  A last read that ends behind the text
      counts only when it yields a separator. */
  ghost function Name(buf: seq<byte>, s: nat, se: nat): seq<nat>
    requires T.Readable(buf, s, se)
  {
    var points := T.Points(buf, s, se);
    T.PointAt(buf, s, se, |points|);
    var e := T.At(buf, s, se, |points|);
    if e < se && IsSeparator(U.Point(buf, e, se)) then points + [U.Point(buf, e, se)] else points
  }

  /** The cursor `si` is before the `j`-th point of the name, or behind the text. */
  ghost predicate Reached(buf: seq<byte>, s0: nat, se: nat, cps: seq<nat>, j: nat, si: nat) {
    && T.Readable(buf, s0, se) && cps == Name(buf, s0, se) && j <= |cps|
    && if j <= |T.Points(buf, s0, se)| && si <= se then si == T.At(buf, s0, se, j) else j == |cps| && si > se
  }

  /** Reading the next point of the name. */
  lemma NextReached(buf: seq<byte>, s0: nat, se: nat, cps: seq<nat>, j: nat, si: nat)
    requires Reached(buf, s0, se, cps, j, si) && si < se
    ensures T.Readable(buf, si, se)
    ensures var c, q := U.Point(buf, si, se), T.After(buf, si, se);
      if j < |cps| then cps[j] == c && Reached(buf, s0, se, cps, j + 1, q)
      else !IsSeparator(c) && Reached(buf, s0, se, cps, j, q)
  {
    hide U.Point, U.Span, T.Points, T.At, IsSeparator;
    T.PointAt(buf, s0, se, j);
  }

  /** At the end of the text the whole name has been read. */
  lemma AllReached(buf: seq<byte>, s0: nat, se: nat, cps: seq<nat>, j: nat, si: nat)
    requires Reached(buf, s0, se, cps, j, si) && si >= se
    ensures j == |cps|
  {
    hide U.Point, U.Span, T.Points, T.At, IsSeparator;
    if si == se {
      T.PointAt(buf, s0, se, j);
    }
  }

  lemma ReachedStart(buf: seq<byte>, s0: nat, se: nat, cps: seq<nat>)
    requires T.Readable(buf, s0, se) && cps == Name(buf, s0, se)
    ensures Reached(buf, s0, se, cps, 0, s0) && Reached(buf, s0, se, cps, OpenStart(cps, 0), s0)
  {
    assert cps[..0] == [];
  }

  /** The open label lies between the two cursors. */
  lemma OpenPoints(buf: seq<byte>, s0: nat, se: nat, cps: seq<nat>, j: nat, s: nat, st: nat)
    requires j <= |cps| && Reached(buf, s0, se, cps, j, st) && Reached(buf, s0, se, cps, OpenStart(cps, j), s) && s <= se && st <= se
    ensures T.Readable(buf, s, st) && T.Points(buf, s, st) == Open(cps[..j])
  {
    hide U.Point, U.Span, T.Points, T.At, Open, IsSeparator;
    var i := OpenStart(cps, j);
    T.Stretch(buf, s0, se, i, j);
    assert cps[i..j] == cps[..j][i..];
  }

  /** The same for the label that the end of the text closes. */
  lemma LastPoints(buf: seq<byte>, s0: nat, se: nat, cps: seq<nat>, s: nat)
    requires Reached(buf, s0, se, cps, OpenStart(cps, |cps|), s) && s < se
    ensures T.Readable(buf, s, se) && T.Points(buf, s, se) == Open(cps)
  {
    hide U.Point, U.Span, T.Points, T.At, T.Readable, Open, OpenStart, Closed, IsSeparator;
    var points, i := T.Points(buf, s0, se), OpenStart(cps, |cps|);
    LastOpen(cps);
    if |cps| > |points| {
      OpenIs(cps, |points|);
    } else {
      T.PointAt(buf, s0, se, i);
    }
  }

  lemma LastOpen(cps: seq<nat>)
    ensures var i := OpenStart(cps, |cps|); i + |Open(cps)| == |cps| && cps[i..] == Open(cps)
  {
    hide Open;
    assert cps[..|cps|] == cps;
  }

  lemma NothingOpen(buf: seq<byte>, s0: nat, se: nat, cps: seq<nat>, s: nat)
    requires Reached(buf, s0, se, cps, OpenStart(cps, |cps|), s) && s >= se
    ensures Open(cps) == [] && StandsFor([], [])
  {
    hide Reached, Open, OpenStart, Decode, T.Readable;
    AllReached(buf, s0, se, cps, OpenStart(cps, |cps|), s);
    LastOpen(cps);
  }

  ghost predicate LabelsScalar(labels: seq<seq<nat>>) {
    forall i: nat | i < |labels| :: T.AllScalar(labels[i])
  }

  lemma LabelsSnoc(labels: seq<seq<nat>>, piece: seq<nat>)
    ensures LabelsScalar(labels + [piece]) <==> LabelsScalar(labels) && T.AllScalar(piece)
  {
    hide T.AllScalar;
    var more := labels + [piece];
    assert more[|labels|] == piece && forall i: nat | i < |labels| :: more[i] == labels[i];
  }

  lemma ScalarSnoc(cps: seq<nat>, c: nat)
    ensures T.AllScalar(cps + [c]) <==> T.AllScalar(cps) && U.Scalar(c)
  {
    hide U.Scalar;
    var more := cps + [c];
    assert more[|cps|] == c && forall i: nat | i < |cps| :: more[i] == cps[i];
  }

  /** A name consists of code points when its labels do. */
  lemma {:induction false} NameScalar(cps: seq<nat>)
    requires LabelsScalar(Closed(cps)) && T.AllScalar(Open(cps))
    ensures T.AllScalar(cps)
  {
    hide LabelsScalar, T.AllScalar;
    if cps == [] {
      assert T.AllScalar([]) by { assert Open([]) == []; }
    } else {
      var most, c := cps[..|cps| - 1], cps[|cps| - 1];
      assert cps == most + [c];
      ScalarSnoc(most, c);
      if IsSeparator(c) {
        LabelsSnoc(Closed(most), Open(most));
      } else {
        ScalarSnoc(Open(most), c);
      }
      NameScalar(most);
    }
  }

  lemma EncodedScalar(texts: seq<seq<byte>>, last: seq<byte>, cps: seq<nat>)
    requires AllStandFor(texts, Closed(cps)) && StandsFor(last, Open(cps))
    ensures T.AllScalar(cps)
  {
    hide Open, Closed, T.AllScalar;
    assert forall i: nat | i < |Closed(cps)| :: StandsFor(texts[i], Closed(cps)[i]);
    NameScalar(cps);
  }

  /** Why a label of the name was refused. */
  ghost predicate Refused(rc: int, cps: seq<nat>) {
    || (rc == UV_EINVAL && U.INVALID in cps)
    || (rc == UV_E2BIG && 0x110000 * (|cps| + 1) >= 0x1_0000_0000)
  }

  lemma PartRefused(rc: int, cps: seq<nat>, j: nat, piece: seq<nat>)
    requires j <= |cps| && Open(cps[..j]) == piece && Refused(rc, piece)
    ensures Refused(rc, cps)
  {
    hide Open;
    var i := j - |piece|;
    assert cps[..j][i..] == piece;
    assert forall k: nat | k < |piece| :: piece[k] == cps[i + k];
  }

  /** Encode the label that ends at `st`, before the `j`-th point. */
  method PutLabel(buf: seq<byte>, s: nat, st: nat, out: Output, ghost cps: seq<nat>, ghost j: nat)
    returns (rc: int, ghost text: seq<byte>)
    requires j <= |cps| && T.Readable(buf, s, st) && T.Points(buf, s, st) == Open(cps[..j]) && st - s < 0x8000_0000
    requires out.Valid()
    modifies out`d, out`full, out.buf
    ensures out.Valid()
    ensures rc < 0 ==> Refused(rc, cps)
    ensures rc >= 0 ==> out.full == old(out.full) + text && StandsFor(text, Open(cps[..j]))
  {
    hide T.Readable, T.Points, StandsFor, Output.Valid, Open;
    rc := ToAsciiLabel(buf, s, st, out);
    text := if rc >= 0 then out.full[|old(out.full)|..] else [];
    if rc < 0 {
      PartRefused(rc, cps, j, Open(cps[..j]));
    }
  }

  /** `uv__idna_toascii`: the labels one by one, each followed by a full stop unless it is the
      last, and a final NUL.  The result is the number of bytes written. */
  method ToAscii(buf: seq<byte>, s0: nat, se: nat, out: Output)
    returns (rc: int, ghost texts: seq<seq<byte>>, ghost last: seq<byte>)
    requires T.Readable(buf, s0, se) && se - s0 < 0x8000_0000
    requires out.Valid() && out.full == [] && out.d == out.start
    modifies out`d, out`full, out.buf
    ensures out.Valid()
    ensures rc < 0 ==> Refused(rc, Name(buf, s0, se))
    ensures rc >= 0 ==>
      var cps := Name(buf, s0, se);
      && T.AllScalar(cps)
      && AllStandFor(texts, Closed(cps)) && StandsFor(last, Open(cps))
      && out.full == Dotted(texts) + last + [0]
      && rc == out.d - out.start
  {
    hide Reached, StandsFor, AllStandFor, Dotted, IsSeparator, Open, OpenStart, Closed, T.Readable, T.Points, Refused, Name, U.Point, U.Span;
    assert out.start <= out.d;
    hide Output.Valid;
    var ds := out.d;
    ghost var cps := Name(buf, s0, se);
    ReachedStart(buf, s0, se, cps);
    NothingYet(cps);
    texts, last := [], [];
    var s, si := s0, s0;
    ghost var j := 0;
    while si < se
      invariant j <= |cps| && Reached(buf, s0, se, cps, j, si) && s0 <= s <= si
      invariant Reached(buf, s0, se, cps, OpenStart(cps, j), s)
      invariant out.Valid() && AllStandFor(texts, Closed(cps[..j])) && out.full == Dotted(texts)
      decreases se - si
    {
      NextReached(buf, s0, se, cps, j, si);
      var st := si;
      var c;
      c, si := DecodeNext(buf, si, se);
      if j < |cps| {
        OpenIs(cps, j);
      }
      if !IsSeparator(c) {
        j := if j < |cps| then j + 1 else j;
        continue;
      }
      OpenPoints(buf, s0, se, cps, j, s, st);
      ghost var text;
      rc, text := PutLabel(buf, s, st, out, cps, j);
      if rc < 0 {
        return;
      }
      AddText(texts, Closed(cps[..j]), text, Open(cps[..j]));
      out.Put(46);
      texts := texts + [text];
      s := si;
      j := j + 1;
    }
    AllReached(buf, s0, se, cps, j, si);
    assert cps[..j] == cps;
    if s < se {
      LastPoints(buf, s0, se, cps, s);
      rc, last := PutLabel(buf, s, se, out, cps, j);
      if rc < 0 {
        return;
      }
    } else {
      NothingOpen(buf, s0, se, cps, s);
    }
    EncodedScalar(texts, last, cps);
    out.Put(0);
    rc := Written(out, ds);
  }

  method DecodeNext(buf: seq<byte>, p: nat, se: nat) returns (c: nat, q: nat)
    requires T.Readable(buf, p, se)
    ensures T.Readable(buf, p, se) && c == U.Point(buf, p, se) && q == T.After(buf, p, se)
  {
    c, q := U.Decode1(buf, p, se);
  }

  /** On well-formed text the points are its code points, so that only very long labels are
      refused. */
  lemma TextIsName(buf: seq<byte>, s: nat, se: nat, cps: seq<nat>)
    requires T.AllScalar(cps) && s <= se < |buf| && se + U.Span(buf[se], 0) <= |buf| && buf[s..se] == U.Text(cps)
    ensures T.Readable(buf, s, se) && Name(buf, s, se) == cps
    ensures forall rc :: Refused(rc, cps) ==> rc == UV_E2BIG
  {
    hide U.Point, U.Span, U.Text, T.Points, T.At, T.Readable;
    T.TextIsRead(buf, s, se, cps);
  }

  method Written(out: Output, ds: nat) returns (n: int)
    requires out.Valid() && ds == out.start
    ensures n == out.d - out.start >= 0
  {
    n := out.d - ds;
  }

}
