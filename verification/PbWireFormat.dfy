/**
  The wire format of Protocol Buffers as its specification describes it: a message
  is a series of records, a record is a key and a payload, and the low three bits
  of the key say which of four shapes the payload has.  Nothing here refers to the
  encoder or the decoder; PbEncodeLaws and PbDecodeLaws compare them with it.
*/
module PbWireFormat {
  import opened Bits
  import opened PbWire

  datatype Payload =
    | Varint(n: nat)
    | Fixed64(n: nat)
    | Len(bytes: seq<byte>)
    | Fixed32(n: nat)

  datatype Record = Record(tag: nat, payload: Payload)

  function WireNumber(p: Payload): nat {
    match p
    case Varint(_) => 0
    case Fixed64(_) => 1
    case Len(_) => 2
    case Fixed32(_) => 5
  }

  function PayloadBytes(p: Payload): seq<byte> {
    match p
    case Varint(n) => VarintBytes(n)
    case Fixed64(n) => LowByteFirst(n, 8)
    case Len(b) => VarintBytes(|b|) + b
    case Fixed32(n) => LowByteFirst(n, 4)
  }

  /** Byte `k` is the `k`-th digit to the base 256. */
  function LowByteFirst(n: nat, size: nat): seq<byte> {
    seq(size, (k: nat) => n / Pow2(8 * k) % 256)
  }

  function Wire(r: Record): seq<byte> {
    VarintBytes(8 * r.tag + WireNumber(r.payload)) + PayloadBytes(r.payload)
  }

  function Stream(rs: seq<Record>): seq<byte> {
    if rs == [] then [] else Wire(rs[0]) + Stream(rs[1..])
  }

  lemma {:induction false} StreamAppend(a: seq<Record>, b: seq<Record>)
    ensures Stream(a + b) == Stream(a) + Stream(b)
  {
    if a == [] {
      assert a + b == b;
    } else {
      assert (a + b)[1..] == a[1..] + b;
      StreamAppend(a[1..], b);
    }
  }

  lemma StreamOne(r: Record)
    ensures Stream([r]) == Wire(r)
  {
    assert [r][1..] == [];
    assert Wire(r) + [] == Wire(r);
  }

  // ----- the integers in it -----

  /** Byte `k` of a varint is the `k`-th digit to the base 128, with 128 added to all but the
      last; there are as many as the number needs. */
  lemma {:induction false} VarintDigits(v: nat, k: nat)
    requires k < |VarintBytes(v)|
    ensures VarintBytes(v)[k] == v / Pow2(7 * k) % 128 + (if k + 1 < |VarintBytes(v)| then 128 else 0)
    ensures k > 0 ==> v >= Pow2(7 * k)
    ensures k + 1 == |VarintBytes(v)| ==> v < Pow2(7 * (k + 1))
  {
    if k == 0 {
      FirstDigit(v);
    } else {
      hide Pow2, VarintBytes;
      TailDigits(v);
      VarintDigits(v / 128, k - 1);
      Pow2Group(k - 1);
      Pow2Group(k);
      DigitStep(v, Pow2(7 * (k - 1)), Pow2(7 * k), Pow2(7 * (k + 1)));
    }
  }

  lemma FirstDigit(v: nat)
    ensures VarintBytes(v)[0] == v / Pow2(7 * 0) % 128 + (if 1 < |VarintBytes(v)| then 128 else 0)
    ensures 1 == |VarintBytes(v)| ==> v < Pow2(7 * 1)
  {
    Pow2Values();
    assert Pow2(0) == 1;
  }

  lemma TailDigits(v: nat)
    requires |VarintBytes(v)| > 1
    ensures v >= 128 && VarintBytes(v)[1..] == VarintBytes(v / 128)
  {
  }

  lemma DigitStep(v: nat, p: nat, p1: nat, p2: nat)
    requires p > 0 && p1 == 128 * p && p2 == 128 * p1
    ensures v / 128 / p == v / p1
    ensures v >= 128 && p == 1 ==> v >= p1
    ensures v / 128 >= p ==> v >= p1
    ensures v / 128 < p1 ==> v < p2
  {
    DivTwice(v, 128, p);
  }

  lemma DivTwice(v: nat, d: nat, p: nat)
    requires d > 0 && p > 0
    ensures d * p > 0 && v / d / p == v / (d * p)
  {
    var w := v / d;
    SplitDiv(v, d);
    SplitDiv(w, p);
    DivTwiceIs(v, d, p, w, v % d, w / p, w % p);
  }

  lemma SplitDiv(x: nat, y: nat)
    requires y > 0
    ensures x == y * (x / y) + x % y && 0 <= x % y < y && x / y >= 0
  {
  }

  lemma DivTwiceIs(v: nat, d: nat, p: nat, w: nat, low: nat, q: nat, r: nat)
    requires v == d * w + low && low < d && w == p * q + r && r < p
    ensures d * p > 0 && v / (d * p) == q
  {
    Regroup(d, p, q, r, low);
    LowPart(d, p, r, low);
    ModUnique(v, d * p, q, d * r + low);
  }

  lemma Regroup(d: nat, p: nat, q: nat, r: nat, low: nat)
    ensures d * (p * q + r) + low == q * (d * p) + (d * r + low)
  {
    assert d * (p * q) == q * (d * p);
  }

  lemma LowPart(d: nat, p: nat, r: nat, low: nat)
    requires r < p && low < d
    ensures d * r + low < d * p
  {
    assert d * (r + 1) <= d * p by { MulAtMost(r + 1, p, d); }
  }

  lemma {:induction false} FixedDigits(v: nat, n: nat, k: nat)
    requires k < n
    ensures FixedBytes(v, n)[k] == v / Pow2(8 * k) % 256
  {
    if k > 0 {
      FixedDigits(v / 256, n - 1, k - 1);
      Pow2Byte(k - 1);
      DivTwice(v, 256, Pow2(8 * (k - 1)));
    }
  }

  lemma FixedIsLowFirst(v: nat, n: nat)
    ensures FixedBytes(v, n) == LowByteFirst(v, n)
  {
    forall k: nat | k < n ensures FixedBytes(v, n)[k] == LowByteFirst(v, n)[k] {
      FixedDigits(v, n, k);
    }
  }

  // ----- reading varints -----

  /** A varint is read if and only if one of its first ten bytes is the last: the first one
      below 128. */
  lemma {:induction false} VarintEnds(s: seq<byte>, k: nat)
    requires forall j :: 0 <= j < k && j < |s| ==> s[j] >= 128
    ensures k < |s| && s[k] < 128 ==> VarintLen(s) == k + 1
    ensures k >= |s| ==> VarintLen(s) > |s|
    ensures VarintLen(s) > k || |s| < k
  {
    if s != [] && k > 0 {
      VarintEnds(s[1..], k - 1);
    }
  }

  lemma VarintAccepted(s: seq<byte>)
    ensures ReadVarint(s).Got? <==> exists k :: 0 <= k < |s| && k < 10 && s[k] < 128
  {
    var n := VarintLen(s);
    var k := FirstBelow(s);
    VarintEnds(s, k);
  }

  lemma FirstBelow(s: seq<byte>) returns (k: nat)
    ensures k <= |s| && (k < |s| ==> s[k] < 128)
    ensures forall j :: 0 <= j < k ==> s[j] >= 128
  {
    k := 0;
    while k < |s| && s[k] >= 128
      invariant k <= |s|
      invariant forall j :: 0 <= j < k ==> s[j] >= 128
    {
      k := k + 1;
    }
  }
}
