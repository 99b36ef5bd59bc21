/**
  The UTF-8 decoder of libuv's idna.c, against the encoding of RFC 3629.
*/
module Utf8 {
  import opened Bits

  /** A code point that UTF-8 can carry: no surrogate, at most U+10FFFF. */
  predicate Scalar(c: int) {
    0 <= c <= 0x10FFFF && !(0xD800 <= c <= 0xDFFF)
  }

  /** Section 3 of RFC 3629. */
  function Encode(c: nat): (bytes: seq<byte>)
    requires Scalar(c)
    ensures 1 <= |bytes| <= 4
  {
    if c < 0x80 then [c]
    else if c < 0x800 then [0xC0 + c / 64, Tail(c)]
    else if c < 0x10000 then [0xE0 + c / 4096, Tail(c / 64), Tail(c)]
    else [0xF0 + c / 0x40000, Tail(c / 4096), Tail(c / 64), Tail(c)]
  }

  function Tail(c: nat): byte {
    0x80 + c % 64
  }

  /** The examples of section 7 of RFC 3629. */
  lemma EncodeSamples()
    ensures Encode(0x41) == [0x41]
    ensures Encode(0x391) == [0xCE, 0x91]
    ensures Encode(0x2262) == [0xE2, 0x89, 0xA2]
    ensures Encode(0x233B4) == [0xF0, 0xA3, 0x8E, 0xB4]
  {
  }

  function Text(cps: seq<nat>): (bytes: seq<byte>)
    requires forall i: nat | i < |cps| :: Scalar(cps[i])
  {
    if cps == [] then [] else Text(cps[..|cps| - 1]) + Encode(cps[|cps| - 1])
  }

  lemma TextOfNothing()
    ensures Text([]) == []
  {
  }

  lemma TextSnoc(s: seq<nat>, c: nat)
    requires Scalar(c) && forall i: nat | i < |s| :: Scalar(s[i])
    ensures Text(s + [c]) == Text(s) + Encode(c)
  {
    assert (s + [c])[..|s|] == s;
  }

  /** `(unsigned) -1`. */
  const INVALID := 0xFFFF_FFFF

  /** Bitwise exclusive or. */
  function Xor(x: nat, y: nat): nat
    decreases x + y
  {
    if x == 0 then y
    else if y == 0 then x
    else (if x % 2 != y % 2 then 1 else 0) + 2 * Xor(x / 2, y / 2)
  }

  /** Exclusive or works on each bit alone. */
  lemma {:induction false} XorHigh(x: nat, y: nat, k: nat)
    ensures Shr(Xor(x, y), k) == Xor(Shr(x, k), Shr(y, k))
  {
    if k > 0 {
      XorHigh(x, y, k - 1);
      XorHalf(Shr(x, k - 1), Shr(y, k - 1));
    }
  }

  lemma XorHalf(x: nat, y: nat)
    ensures Xor(x, y) / 2 == Xor(x / 2, y / 2)
  {
  }

  lemma ShrSix(x: nat)
    ensures Shr(x, 6) == x / 64
  {
    assert Shr(x, 1) == x / 2;
    assert Shr(x, 2) == x / 4;
    assert Shr(x, 3) == x / 8;
    assert Shr(x, 4) == x / 16;
    assert Shr(x, 5) == x / 32;
  }

  /** The two high bits of three combined bytes, as the decoder tests them. */
  function TopBits(b: nat, c: nat, d: nat): nat {
    Xor(Xor(b, c), d) / 64 % 4
  }

  predicate Continuation(b: byte) {
    b / 64 == 2
  }

  lemma TopBitsOfContinuations(b: byte, c: byte, d: byte)
    requires Continuation(b) && Continuation(c) && Continuation(d)
    ensures TopBits(b, c, d) == 2
  {
    XorHigh(Xor(b, c), d, 6);
    XorHigh(b, c, 6);
    ShrSix(b);
    ShrSix(c);
    ShrSix(d);
    ShrSix(Xor(Xor(b, c), d));
    assert Xor(2, 2) == 0;
  }

  /** How many bytes follow a lead byte, when the cursor is `over` bytes past the end. */
  function Following(lead: byte, over: int): (n: nat)
    ensures n <= 3
  {
    if lead > 0xF7 then 0
    else if over != 1 && over != 2 && lead > 0xEF then 3
    else if over != 1 && lead > 0xDF then 2
    else if lead > 0xBF then 1
    else 0
  }

  lemma Assemble(a: nat, b: nat, c: nat, d: nat)
    requires b < 64 && c < 64 && d < 64
    ensures BitOr(BitOr(BitOr(a * 0x40000, b * 0x1000), c * 64), d) == a * 0x40000 + b * 0x1000 + c * 64 + d
  {
    hide BitOr;
    Pow2Six();
    OrLow(a, b * 0x1000, 18);
    OrLow(a * 64 + b, c * 64, 12);
    OrLow(a * 0x1000 + b * 64 + c, d, 6);
  }

  lemma Pow2Six()
    ensures Pow2(6) == 64 && Pow2(12) == 0x1000 && Pow2(18) == 0x40000
  {
    Pow2Add(6, 6);
    Pow2Add(12, 6);
  }

  /** The last checks of the slow path. */
  function Checked(least: nat, a: nat, b: nat, c: nat, d: nat): nat {
    if TopBits(b, c, d) != 2 then INVALID
    else
      var v := Value(a, b, c, d);
      if v < least || v > 0x10FFFF || 0xD800 <= v <= 0xDFFF then INVALID else v
  }

  /** What a lead byte and the bytes after it decode to. */
  function SlowValue(lead: byte, rest: seq<byte>): nat {
    if |rest| == 3 then Checked(0x10000, lead % 8, rest[0], rest[1], rest[2])
    else if |rest| == 2 then Checked(0x800, 0, 0x80 + lead % 16, rest[0], rest[1])
    else if |rest| == 1 then Checked(0x80, 0, 0x80, 0x80 + lead % 32, rest[0])
    else INVALID
  }

  lemma Or80(x: nat)
    requires x < 64
    ensures BitOr(0x80, x) == 0x80 + x
  {
    hide BitOr;
    Pow2Six();
    OrLow(2, x, 6);
  }

  /** The second half: take the groups together and refuse what is not the shortest form of a
      code point. */
  method Combine(min: nat, a: nat, b0: byte, x0: byte, d0: byte) returns (c: nat)
    requires a < 8
    ensures c == Checked(min, a, b0, x0, d0)
  {
    hide BitOr, TopBits, Xor;
    if TopBits(b0, x0, d0) != 2 {
      return INVALID;
    }
    var b, x, d := b0 % 64, x0 % 64, d0 % 64;
    Assemble(a, b, x, d);
    c := BitOr(BitOr(BitOr(a * 0x40000, b * 0x1000), x * 64), d);
    if c < min {
      return INVALID;            // overlong
    }
    if c > 0x10FFFF {
      return INVALID;
    }
    if 0xD800 <= c <= 0xDFFF {
      return INVALID;            // a surrogate
    }
  }

  /** `uv__utf8_decode1_slow`, called with the cursor `p` just after the lead byte. */
  method DecodeSlow(buf: seq<byte>, p: nat, pe: nat, lead: byte) returns (c: nat, q: nat)
    requires p + Following(lead, p - pe) <= |buf|
    ensures q == p + Following(lead, p - pe)
    ensures c == SlowValue(lead, buf[p..q])
  {
    hide BitOr, Checked;
    q := p;
    if lead > 0xF7 {
      return INVALID, q;
    }
    var a, b, x, d, min;
    if p - pe != 1 && p - pe != 2 && lead > 0xEF {
      min := 0x10000;
      a, b, x, d := lead % 8, buf[q], buf[q + 1], buf[q + 2];
      q := q + 3;
    } else if p - pe != 1 && lead > 0xDF {
      min := 0x800;
      Or80(lead % 16);
      a, b, x, d := 0, BitOr(0x80, lead % 16), buf[q], buf[q + 1];
      q := q + 2;
    } else if lead > 0xBF {
      min := 0x80;
      Or80(lead % 32);
      a, b, x, d := 0, 0x80, BitOr(0x80, lead % 32), buf[q];
      q := q + 1;
    } else {
      return INVALID, q;
    }
    c := Combine(min, a, b, x, d);
  }

  /** A number below `2^24` in groups of six bits. */
  lemma Groups(c: nat)
    ensures c == c / 0x40000 * 0x40000 + c / 4096 % 64 * 0x1000 + c / 64 % 64 * 64 + c % 64
    ensures c < 0x10000 ==> c / 0x40000 == 0 && c / 4096 % 64 == c / 4096 < 16
    ensures c < 0x800 ==> c / 4096 == 0 && c / 64 % 64 == c / 64 < 32
    ensures c < 0x200000 ==> c / 0x40000 < 8
  {
  }

  lemma GroupsUnique(a: nat, b: nat, x: nat, d: nat)
    requires b < 64 && x < 64 && d < 64
    ensures var c := a * 0x40000 + b * 0x1000 + x * 64 + d;
      c / 0x40000 == a && c / 4096 % 64 == b && c / 64 % 64 == x && c % 64 == d && c / 4096 == a * 64 + b && c / 64 == a * 4096 + b * 64 + x
  {
    var high, upper := a * 64 + b, a * 4096 + b * 64 + x;
    OneGroup(a, b);
    OneGroup(high, x);
    OneGroup(upper, d);
    TwoGroups(upper * 64 + d);
  }

  lemma OneGroup(high: nat, low: nat)
    requires low < 64
    ensures (high * 64 + low) / 64 == high && (high * 64 + low) % 64 == low
  {
  }

  lemma TwoGroups(c: nat)
    ensures c / 4096 == c / 64 / 64 && c / 0x40000 == c / 64 / 64 / 64
  {
  }

  /** The continuation groups of a value. */
  function Value(a: nat, b: nat, c: nat, d: nat): nat {
    a * 0x40000 + b % 64 * 0x1000 + c % 64 * 64 + d % 64
  }

  lemma ValueSize(a: nat, b: nat, c: nat, d: nat)
    ensures a == 0 && b % 64 < 16 ==> Value(a, b, c, d) < 0x10000
    ensures a == 0 && b % 64 == 0 && c % 64 < 32 ==> Value(a, b, c, d) < 0x800
  {
  }

  /** Whatever is accepted is a code point that takes as many bytes as were read. */
  lemma AcceptedIsScalar(lead: byte, over: int, rest: seq<byte>)
    requires |rest| == Following(lead, over) && SlowValue(lead, rest) != INVALID
    ensures Scalar(SlowValue(lead, rest)) && |Encode(SlowValue(lead, rest))| == 1 + |rest|
  {
    hide TopBits, Value;
    if |rest| == 2 {
      ValueSize(0, 0x80 + lead % 16, rest[0], rest[1]);
    } else if |rest| == 1 {
      ValueSize(0, 0x80, 0x80 + lead % 32, rest[0]);
    }
  }

  /** The slow path inverts the encoding... */
  lemma SlowInverts(cp: nat)
    requires Scalar(cp) && cp >= 0x80
    ensures var bytes := Encode(cp);
      bytes[0] >= 0x80 && |bytes| - 1 == Following(bytes[0], 0) && SlowValue(bytes[0], bytes[1..]) == cp
  {
    hide SlowValue, Following;
    Groups(cp);
    if cp < 0x800 {
      TwoInverts(cp / 64, cp % 64, cp);
    } else if cp < 0x10000 {
      ThreeInverts(cp / 4096, cp / 64 % 64, cp % 64, cp);
    } else {
      FourInverts(cp / 0x40000, cp / 4096 % 64, cp / 64 % 64, cp % 64, cp);
    }
  }

  lemma TwoInverts(a: nat, b: nat, cp: nat)
    requires a < 32 && b < 64 && cp == a * 64 + b && 0x80 <= cp
    ensures SlowValue(0xC0 + a, [0x80 + b]) == cp && Following(0xC0 + a, 0) == 1
  {
    hide TopBits, Value;
    ValueOf(0, 0x80, 0x80 + a, 0x80 + b);
    TopBitsOfContinuations(0x80, 0x80 + a, 0x80 + b);
  }

  lemma ThreeInverts(a: nat, b: nat, c: nat, cp: nat)
    requires a < 16 && b < 64 && c < 64 && cp == a * 0x1000 + b * 64 + c && 0x800 <= cp && Scalar(cp)
    ensures SlowValue(0xE0 + a, [0x80 + b, 0x80 + c]) == cp && Following(0xE0 + a, 0) == 2
  {
    hide TopBits, Value;
    ValueOf(0, 0x80 + a, 0x80 + b, 0x80 + c);
    TopBitsOfContinuations(0x80 + a, 0x80 + b, 0x80 + c);
  }

  lemma FourInverts(a: nat, b: nat, c: nat, d: nat, cp: nat)
    requires a < 8 && b < 64 && c < 64 && d < 64 && cp == a * 0x40000 + b * 0x1000 + c * 64 + d
    requires 0x10000 <= cp && Scalar(cp)
    ensures SlowValue(0xF0 + a, [0x80 + b, 0x80 + c, 0x80 + d]) == cp && Following(0xF0 + a, 0) == 3
  {
    hide TopBits, Value;
    ValueOf(a, 0x80 + b, 0x80 + c, 0x80 + d);
    TopBitsOfContinuations(0x80 + b, 0x80 + c, 0x80 + d);
  }

  /** ... and accepts nothing else when the bytes after the lead are continuation bytes. */
  lemma AcceptedIsEncoded(lead: byte, rest: seq<byte>)
    requires lead >= 0x80 && |rest| == Following(lead, 0) && SlowValue(lead, rest) != INVALID
    requires forall i: nat | i < |rest| :: Continuation(rest[i])
    ensures Scalar(SlowValue(lead, rest)) && Encode(SlowValue(lead, rest)) == [lead] + rest
  {
    hide TopBits, SlowValue, Encode, Following;
    AcceptedIsScalar(lead, 0, rest);
    FollowingCount(lead);
    if |rest| == 3 {
      assert rest == [0x80 + rest[0] % 64, 0x80 + rest[1] % 64, 0x80 + rest[2] % 64];
      FourEncoded(lead % 8, rest[0] % 64, rest[1] % 64, rest[2] % 64);
    } else if |rest| == 2 {
      assert rest == [0x80 + rest[0] % 64, 0x80 + rest[1] % 64];
      ThreeEncoded(lead % 16, rest[0] % 64, rest[1] % 64);
    } else if |rest| == 1 {
      assert rest == [0x80 + rest[0] % 64];
      TwoEncoded(lead % 32, rest[0] % 64);
    }
  }

  lemma FollowingCount(lead: byte)
    requires lead >= 0x80
    ensures Following(lead, 0) == 3 ==> lead == 0xF0 + lead % 8
    ensures Following(lead, 0) == 2 ==> lead == 0xE0 + lead % 16
    ensures Following(lead, 0) == 1 ==> lead == 0xC0 + lead % 32
    ensures Following(lead, 0) <= 3
    ensures SlowValue(lead, []) == INVALID
  {
  }

  lemma TwoEncoded(a: nat, b: nat)
    requires a < 32 && b < 64 && SlowValue(0xC0 + a, [0x80 + b]) != INVALID
    ensures var c := SlowValue(0xC0 + a, [0x80 + b]); Scalar(c) && Encode(c) == [0xC0 + a, 0x80 + b]
  {
    hide TopBits, Encode, Value;
    ValueOf(0, 0x80, 0x80 + a, 0x80 + b);
    EncodeGroups(0, 0, a, b, SlowValue(0xC0 + a, [0x80 + b]));
  }

  lemma ThreeEncoded(a: nat, b: nat, c: nat)
    requires a < 16 && b < 64 && c < 64 && SlowValue(0xE0 + a, [0x80 + b, 0x80 + c]) != INVALID
    ensures var v := SlowValue(0xE0 + a, [0x80 + b, 0x80 + c]); Scalar(v) && Encode(v) == [0xE0 + a, 0x80 + b, 0x80 + c]
  {
    hide TopBits, Encode, Value;
    ValueOf(0, 0x80 + a, 0x80 + b, 0x80 + c);
    EncodeGroups(0, a, b, c, SlowValue(0xE0 + a, [0x80 + b, 0x80 + c]));
  }

  lemma FourEncoded(a: nat, b: nat, c: nat, d: nat)
    requires a < 8 && b < 64 && c < 64 && d < 64 && SlowValue(0xF0 + a, [0x80 + b, 0x80 + c, 0x80 + d]) != INVALID
    ensures var v := SlowValue(0xF0 + a, [0x80 + b, 0x80 + c, 0x80 + d]);
      Scalar(v) && Encode(v) == [0xF0 + a, 0x80 + b, 0x80 + c, 0x80 + d]
  {
    hide TopBits, Encode, Value;
    ValueOf(a, 0x80 + b, 0x80 + c, 0x80 + d);
    EncodeGroups(a, b, c, d, SlowValue(0xF0 + a, [0x80 + b, 0x80 + c, 0x80 + d]));
  }

  lemma ValueOf(a: nat, b: nat, c: nat, d: nat)
    requires 0x80 <= b < 0xC0 && 0x80 <= c < 0xC0 && 0x80 <= d < 0xC0
    ensures Value(a, b, c, d) == a * 0x40000 + (b - 0x80) * 0x1000 + (c - 0x80) * 64 + (d - 0x80)
  {
  }

  lemma EncodeGroups(a: nat, b: nat, c: nat, d: nat, v: nat)
    requires a < 8 && b < 64 && c < 64 && d < 64 && v == a * 0x40000 + b * 0x1000 + c * 64 + d && Scalar(v)
    ensures v >= 0x10000 ==> Encode(v) == [0xF0 + a, 0x80 + b, 0x80 + c, 0x80 + d]
    ensures 0x800 <= v < 0x10000 ==> Encode(v) == [0xE0 + b, 0x80 + c, 0x80 + d]
    ensures 0x80 <= v < 0x800 ==> Encode(v) == [0xC0 + c, 0x80 + d]
  {
    GroupsUnique(a, b, c, d);
  }

  /** How many bytes a call of `Decode1` reads. */
  function Span(lead: byte, over: int): nat {
    if lead < 128 then 1 else 1 + Following(lead, over + 1)
  }

  /** What a call of `Decode1` at `p` returns. */
  function Point(buf: seq<byte>, p: nat, pe: nat): nat
    requires p < |buf| && p + Span(buf[p], p - pe) <= |buf|
  {
    if buf[p] < 128 then buf[p] else SlowValue(buf[p], buf[p + 1..p + Span(buf[p], p - pe)])
  }

  /** `uv__utf8_decode1`. */
  method Decode1(buf: seq<byte>, p: nat, pe: nat) returns (c: nat, q: nat)
    requires p < |buf| && p + Span(buf[p], p - pe) <= |buf|
    ensures p < q == p + Span(buf[p], p - pe) && c == Point(buf, p, pe)
  {
    hide SlowValue, Following;
    var a := buf[p];
    q := p + 1;
    if a < 128 {
      return a, q;
    }
    c, q := DecodeSlow(buf, q, pe, a);
  }

  /** Only code points are accepted, and they are as long as what was read; of bytes with proper
      continuation bytes inside the text only the encoding is accepted. */
  lemma PointIsScalar(buf: seq<byte>, p: nat, pe: nat)
    requires p < |buf| && p + Span(buf[p], p - pe) <= |buf|
    ensures var c, q := Point(buf, p, pe), p + Span(buf[p], p - pe);
      c == 0xFFFF_FFFF ||
      (c <= 0x10FFFF && !(0xD800 <= c <= 0xDFFF) && |Encode(c)| == q - p
       && (q <= pe && (forall i | p < i < q :: Continuation(buf[i])) ==> buf[p..q] == Encode(c)))
  {
    hide Encode, SlowValue, TopBits, Following, Continuation;
    var a, c, q := buf[p], Point(buf, p, pe), p + Span(buf[p], p - pe);
    var rest := buf[p + 1..q];
    assert buf[p..q] == [a] + rest;
    if a < 128 {
      AsciiEncoded(a);
    } else if c != INVALID {
      AcceptedIsScalar(a, p + 1 - pe, rest);
      if q <= pe && forall i | p < i < q :: Continuation(buf[i]) {
        FollowingInside(a, p + 1 - pe);
        AcceptedIsEncoded(a, rest);
      }
    }
  }

  /** An encoded code point inside the text is read. */
  lemma PointOfEncoded(buf: seq<byte>, p: nat, pe: nat, cp: nat)
    requires p < pe && Scalar(cp) && p <= |buf| && Encode(cp) <= buf[p..]
    ensures p < |buf| && Span(buf[p], p - pe) == |Encode(cp)| <= |buf| - p
    ensures Point(buf, p, pe) == cp
  {
    hide Encode, SlowValue, TopBits, Following, Scalar;
    EncodedAt(buf[p..], cp);
    FollowingInside(buf[p], p + 1 - pe);
    assert buf[p..][0] == buf[p];
    assert buf[p..][1..|Encode(cp)|] == buf[p + 1..p + |Encode(cp)|];
  }

  lemma FollowingInside(lead: byte, over: int)
    requires over <= 0
    ensures Following(lead, over) == Following(lead, 0)
  {
  }

  lemma AsciiEncoded(a: byte)
    requires a < 128
    ensures Scalar(a) && Encode(a) == [a]
  {
  }

  lemma EncodedAt(s: seq<byte>, cp: nat)
    requires Scalar(cp) && Encode(cp) <= s
    ensures cp < 128 ==> s[0] == cp && |Encode(cp)| == 1
    ensures cp >= 128 ==>
      && s[0] >= 128 && |Encode(cp)| == 1 + Following(s[0], 0) <= |s|
      && SlowValue(s[0], s[1..1 + Following(s[0], 0)]) == cp
  {
    hide SlowValue;
    if cp >= 128 {
      SlowInverts(cp);
      assert s[0] == Encode(cp)[0];
      assert s[1..|Encode(cp)|] == Encode(cp)[1..];
    }
  }

  /** Inside the text it does not matter where the text ends, and at its end no more is read than
      there would be inside. */
  lemma SpanInside(lead: byte, over: int, over': int)
    requires over < 0
    ensures over' < 0 ==> Span(lead, over') == Span(lead, over)
    ensures Span(lead, 0) <= Span(lead, over)
  {
  }
}
