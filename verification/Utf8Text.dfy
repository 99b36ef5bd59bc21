/**
  How libuv's decoder reads a stretch of bytes, whatever they are: point by point, as long as
  that stays within the stretch.
*/
module Utf8Text {
  import opened Bits
  import opened Utf8

  /** Where a read at `p` leaves the cursor. */
  function After(buf: seq<byte>, p: nat, se: nat): (q: nat)
    requires p < |buf|
    ensures q > p
  {
    p + Span(buf[p], p - se)
  }

  /** The bytes that reading from `p` on looks at are there.  The last read starts in the stretch
      and ends behind it. */
  predicate Readable(buf: seq<byte>, p: nat, se: nat)
    decreases if p <= se then se - p else 0
  {
    && p <= se && p < |buf| && After(buf, p, se) <= |buf|
    && (After(buf, p, se) <= se ==> Readable(buf, After(buf, p, se), se))
  }

  /** What is read. */
  function Points(buf: seq<byte>, p: nat, se: nat): (points: seq<nat>)
    requires Readable(buf, p, se)
    ensures |points| <= se - p
    decreases se - p
  {
    var q := After(buf, p, se);
    if q > se then [] else [Point(buf, p, se)] + Points(buf, q, se)
  }

  /** Where the `j`-th point starts. */
  function At(buf: seq<byte>, p: nat, se: nat, j: nat): (a: nat)
    requires Readable(buf, p, se) && j <= |Points(buf, p, se)|
    ensures p <= a <= se
    decreases j
  {
    if j == 0 then p else At(buf, After(buf, p, se), se, j - 1)
  }

  lemma {:induction false} PointAt(buf: seq<byte>, p: nat, se: nat, j: nat)
    requires Readable(buf, p, se) && j <= |Points(buf, p, se)|
    ensures var a, points := At(buf, p, se, j), Points(buf, p, se);
      && Readable(buf, a, se) && Points(buf, a, se) == points[j..]
      && (if j < |points|
          then points[j] == Point(buf, a, se) && At(buf, p, se, j + 1) == After(buf, a, se)
          else After(buf, a, se) > se)
    decreases j
  {
    hide Point, Span;
    if j > 0 {
      PointAt(buf, After(buf, p, se), se, j - 1);
    }
  }

  lemma {:induction false} PointsAreScalar(buf: seq<byte>, p: nat, se: nat)
    requires Readable(buf, p, se)
    ensures forall i: nat | i < |Points(buf, p, se)| :: Points(buf, p, se)[i] == INVALID || Scalar(Points(buf, p, se)[i])
    decreases se - p
  {
    hide Point, Span;
    PointIsScalar(buf, p, se);
    if After(buf, p, se) <= se {
      PointsAreScalar(buf, After(buf, p, se), se);
    }
  }

  /** A stretch that ends where a point starts. */
  lemma {:induction false} Cut(buf: seq<byte>, p: nat, se: nat, j: nat)
    requires Readable(buf, p, se) && j <= |Points(buf, p, se)|
    ensures var st := At(buf, p, se, j);
      Readable(buf, p, st) && Points(buf, p, st) == Points(buf, p, se)[..j]
    decreases j
  {
    hide Point, Span;
    var st := At(buf, p, se, j);
    if j == 0 {
      if p < se {
        SpanInside(buf[p], p - se, 0);
      }
    } else {
      var q := After(buf, p, se);
      SpanInside(buf[p], p - se, p - st);
      SamePoint(buf, p, se, st);
      Cut(buf, q, se, j - 1);
    }
  }

  lemma SamePoint(buf: seq<byte>, p: nat, se: nat, st: nat)
    requires p < |buf| && After(buf, p, se) == After(buf, p, st) <= |buf|
    ensures Point(buf, p, se) == Point(buf, p, st)
  {
    hide Span;
  }

  lemma {:induction false} AtAt(buf: seq<byte>, p: nat, se: nat, i: nat, j: nat)
    requires Readable(buf, p, se) && i <= j <= |Points(buf, p, se)|
    ensures var a := At(buf, p, se, i);
      Readable(buf, a, se) && j - i <= |Points(buf, a, se)| && At(buf, a, se, j - i) == At(buf, p, se, j)
    decreases i
  {
    hide Point, Span;
    if i > 0 {
      AtAt(buf, After(buf, p, se), se, i - 1, j - 1);
    }
  }

  /** The points from the `i`-th to the `j`-th are what is read between their places. */
  lemma Stretch(buf: seq<byte>, p: nat, se: nat, i: nat, j: nat)
    requires Readable(buf, p, se) && i <= j <= |Points(buf, p, se)|
    ensures var a, b := At(buf, p, se, i), At(buf, p, se, j);
      Readable(buf, a, b) && Points(buf, a, b) == Points(buf, p, se)[i..j]
  {
    hide Readable, Points, At;
    PointAt(buf, p, se, i);
    AtAt(buf, p, se, i, j);
    Cut(buf, At(buf, p, se, i), se, j - i);
  }

  // ----- well-formed text -----

  ghost predicate AllScalar(cps: seq<nat>) {
    forall i: nat | i < |cps| :: Scalar(cps[i])
  }

  lemma {:induction false} TextCons(cps: seq<nat>)
    requires AllScalar(cps) && cps != []
    ensures Text(cps) == Encode(cps[0]) + Text(cps[1..])
    decreases |cps|
  {
    hide Encode, Scalar;
    var most, last := cps[..|cps| - 1], cps[|cps| - 1];
    if most == [] {
      assert cps == [last];
    } else {
      TextCons(most);
      assert cps[1..] == most[1..] + [last];
      TextSnoc(most[1..], last);
    }
  }

  lemma SplitSlice(buf: seq<byte>, p: nat, se: nat, first: seq<byte>, rest: seq<byte>)
    requires p <= se <= |buf| && buf[p..se] == first + rest
    ensures first <= buf[p..] && p + |first| <= se && buf[p + |first|..se] == rest
  {
    assert buf[p..][..|first|] == buf[p..se][..|first|] == first;
    assert buf[p + |first|..se] == buf[p..se][|first|..];
  }

  /** Well-formed text is read as what it is. */
  lemma {:induction false} TextIsRead(buf: seq<byte>, p: nat, se: nat, cps: seq<nat>)
    requires AllScalar(cps) && p <= se < |buf| && se + Span(buf[se], 0) <= |buf| && buf[p..se] == Text(cps)
    ensures Readable(buf, p, se) && Points(buf, p, se) == cps && At(buf, p, se, |cps|) == se
    decreases |cps|
  {
    hide Point, Span, Scalar, Encode, Text;
    if cps == [] {
      TextOfNothing();
    } else {
      TextCons(cps);
      var first, rest := Encode(cps[0]), Text(cps[1..]);
      SplitSlice(buf, p, se, first, rest);
      PointOfEncoded(buf, p, se, cps[0]);
      TextIsRead(buf, p + |first|, se, cps[1..]);
    }
  }
}
