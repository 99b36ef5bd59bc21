/**
  The Protocol Buffers wire primitives: what bytes the encoder's integer writers
  produce and what the decoder's integer readers accept, as functions on byte
  sequences.  The loops of pb_encode.c and pb_decode.c are proved against these
  in PbOutput.dfy and PbInput.dfy.
*/
module PbWire {
  import opened Bits

  /** Outcome of reading from the front of a stream: the value and what is left. */
  datatype Read<+T> = Bad | Got(v: T, rest: seq<byte>)

  const WT_VARINT: int := 0
  const WT_64BIT: int := 1
  const WT_STRING: int := 2
  const WT_32BIT: int := 5

  // ----- base-128 varints -----

  /** The number written by a sequence of 7-bit groups, least significant first. */
  function GroupSum(s: seq<byte>): nat {
    if s == [] then 0 else s[0] % 128 + 128 * GroupSum(s[1..])
  }

  /** Bytes up to and including the first one without a continuation bit;
      more than `|s|` when there is none. */
  function VarintLen(s: seq<byte>): (n: nat)
    ensures n >= 1
  {
    if s == [] || s[0] < 128 then 1 else 1 + VarintLen(s[1..])
  }

  /** `pb_decode_varint`: at most ten bytes, value taken modulo 2^64. */
  function ReadVarint(s: seq<byte>): (r: Read<nat>)
    ensures r.Got? ==> |r.rest| < |s|
  {
    var n := VarintLen(s);
    if n > |s| || n > 10 then Bad else Got(Word64(GroupSum(s[..n])), s[n..])
  }

  /** `pb_encode_varint`. */
  function VarintBytes(v: nat): (s: seq<byte>)
    ensures |s| >= 1
  {
    if v < 128 then [v] else [v % 128 + 128] + VarintBytes(v / 128)
  }

  /** `pb_decode_varint32_eof`; `uint_fast8_t` bit positions wrap at 256. */
  function ReadVarint32(s: seq<byte>): (r: Read<nat>)
    ensures r.Got? ==> |r.rest| < |s|
    ensures r.Got? ==> r.v < U32
  {
    if s == [] then Bad
    else if s[0] < 128 then Got(s[0], s[1..])
    else Varint32Tail(s[1..], 7, s[0] % 128)
  }

  /** The value of `result` after one more byte of a multi-byte 32-bit varint;
      `Bad` when that byte makes the value overflow. */
  function Varint32Byte(b: byte, bitpos: nat, result: nat): (r: Read<nat>)
    requires result < U32 && bitpos < 256
    ensures r.Got? ==> r.v < U32
  {
    if bitpos >= 32 then
      var signExtension := if bitpos < 63 then 0xFF else 0x01;
      if b % 128 != 0 && (result / 0x8000_0000 == 0 || b != signExtension) then Bad else Got(result, [])
    else
      var group := ShiftLeft(b % 128, bitpos, 0x1_0000_0000);
      Pow2Values();
      BitOrBelow(result, group, 32);
      Got(BitOr(result, group), [])
  }

  function Varint32Tail(s: seq<byte>, bitpos: nat, result: nat): (r: Read<nat>)
    requires result < U32 && bitpos < 256
    ensures r.Got? ==> |r.rest| < |s| && r.v < U32
  {
    if s == [] then Bad else
    match Varint32Byte(s[0], bitpos, result)
    case Bad => Bad
    case Got(next, _) =>
      var pos := (bitpos + 7) % 256;
      if s[0] >= 128 then Varint32Tail(s[1..], pos, next)
      else if pos == 35 && s[0] / 16 % 8 != 0 then Bad
      else Got(next, s[1..])
  }

  // ----- zigzag and fixed width -----

  /** `pb_encode_svarint`'s mapping of signed to unsigned. */
  function ZigZag(v: int): (z: int)
    ensures -0x8000_0000_0000_0000 <= v < 0x8000_0000_0000_0000 ==> 0 <= z < U64
  {
    if v < 0 then -2 * v - 1 else 2 * v
  }

  /** `pb_decode_svarint`'s mapping back. */
  function UnZigZag(z: nat): int {
    if z % 2 == 1 then -(z / 2) - 1 else z / 2
  }

  function LittleEndian(s: seq<byte>): nat {
    if s == [] then 0 else s[0] + 256 * LittleEndian(s[1..])
  }

  function FixedBytes(v: nat, n: nat): (s: seq<byte>)
    ensures |s| == n
  {
    if n == 0 then [] else [v % 256] + FixedBytes(v / 256, n - 1)
  }

  /** `pb_read` of `n` bytes. */
  function ReadBytes(s: seq<byte>, n: nat): (r: Read<seq<byte>>)
    ensures r.Got? ==> |r.rest| + n == |s|
  {
    if |s| < n then Bad else Got(s[..n], s[n..])
  }

  /** `pb_make_string_substream`: a 32-bit length and that many bytes. */
  function ReadSubstream(s: seq<byte>): (r: Read<seq<byte>>)
    ensures r.Got? ==> |r.rest| + |r.v| < |s|
  {
    match ReadVarint32(s)
    case Bad => Bad
    case Got(size, rest) => ReadBytes(rest, size)
  }

  /** `pb_skip_varint`: any number of continuation bytes. */
  function SkipVarint(s: seq<byte>): (r: Read<()>)
    ensures r.Got? ==> |r.rest| < |s|
  {
    var n := VarintLen(s);
    if n > |s| then Bad else Got((), s[n..])
  }

  /** `pb_skip_field`. */
  function SkipField(wireType: nat, s: seq<byte>): (r: Read<()>)
    ensures r.Got? ==> |r.rest| <= |s|
  {
    if wireType == WT_VARINT then SkipVarint(s)
    else if wireType == WT_64BIT then Forget(ReadBytes(s, 8))
    else if wireType == WT_STRING then Forget(ReadSubstream(s))
    else if wireType == WT_32BIT then Forget(ReadBytes(s, 4))
    else Bad
  }

  function Forget<T>(r: Read<T>): (u: Read<()>)
    ensures r.Got? <==> u.Got?
    ensures r.Got? ==> u.rest == r.rest
  {
    match r case Bad => Bad case Got(_, rest) => Got((), rest)
  }

  // ----- reading is stable under more input -----

  /** `r` read from `s` is the read from `s + t` with `t` left over. */
  ghost predicate Extends<T>(r: Read<T>, r': Read<T>, t: seq<byte>) {
    r.Got? ==> r' == Got(r.v, r.rest + t)
  }

  lemma {:induction false} VarintLenAppend(s: seq<byte>, t: seq<byte>)
    requires VarintLen(s) <= |s|
    ensures VarintLen(s + t) == VarintLen(s)
  {
    if s[0] >= 128 {
      assert (s + t)[1..] == s[1..] + t;
      VarintLenAppend(s[1..], t);
    }
  }

  lemma ReadVarintAppend(s: seq<byte>, t: seq<byte>)
    ensures Extends(ReadVarint(s), ReadVarint(s + t), t)
  {
    var n := VarintLen(s);
    if n <= |s| {
      VarintLenAppend(s, t);
      assert (s + t)[..n] == s[..n];
      assert (s + t)[n..] == s[n..] + t;
    }
  }

  lemma SkipVarintAppend(s: seq<byte>, t: seq<byte>)
    ensures Extends(SkipVarint(s), SkipVarint(s + t), t)
  {
    var n := VarintLen(s);
    if n <= |s| {
      VarintLenAppend(s, t);
      assert (s + t)[n..] == s[n..] + t;
    }
  }

  lemma {:induction false} Varint32TailAppend(s: seq<byte>, bitpos: nat, result: nat, t: seq<byte>)
    requires result < U32 && bitpos < 256
    ensures Extends(Varint32Tail(s, bitpos, result), Varint32Tail(s + t, bitpos, result), t)
  {
    if s != [] && Varint32Byte(s[0], bitpos, result).Got? {
      assert (s + t)[1..] == s[1..] + t;
      Varint32TailAppend(s[1..], (bitpos + 7) % 256, Varint32Byte(s[0], bitpos, result).v, t);
    }
  }

  lemma ReadVarint32Append(s: seq<byte>, t: seq<byte>)
    ensures Extends(ReadVarint32(s), ReadVarint32(s + t), t)
  {
    if s != [] {
      assert (s + t)[1..] == s[1..] + t;
      Varint32TailAppend(s[1..], 7, s[0] % 128, t);
    }
  }

  lemma ReadBytesAppend(s: seq<byte>, n: nat, t: seq<byte>)
    ensures Extends(ReadBytes(s, n), ReadBytes(s + t, n), t)
  {
    if n <= |s| {
      assert (s + t)[..n] == s[..n];
      assert (s + t)[n..] == s[n..] + t;
    }
  }

  lemma ReadSubstreamAppend(s: seq<byte>, t: seq<byte>)
    ensures Extends(ReadSubstream(s), ReadSubstream(s + t), t)
  {
    ReadVarint32Append(s, t);
    if ReadVarint32(s).Got? {
      ReadBytesAppend(ReadVarint32(s).rest, ReadVarint32(s).v, t);
    }
  }

  lemma ForgetExtends<T>(r: Read<T>, r': Read<T>, t: seq<byte>)
    requires Extends(r, r', t)
    ensures Extends(Forget(r), Forget(r'), t)
  {
  }

  lemma SkipFieldAppend(wireType: nat, s: seq<byte>, t: seq<byte>)
    ensures Extends(SkipField(wireType, s), SkipField(wireType, s + t), t)
  {
    hide SkipVarint, ReadBytes, ReadSubstream, Forget;
    if wireType == WT_VARINT {
      SkipVarintAppend(s, t);
    } else if wireType == WT_64BIT {
      ReadBytesAppend(s, 8, t);
      ForgetExtends(ReadBytes(s, 8), ReadBytes(s + t, 8), t);
    } else if wireType == WT_STRING {
      ReadSubstreamAppend(s, t);
      ForgetExtends(ReadSubstream(s), ReadSubstream(s + t), t);
    } else if wireType == WT_32BIT {
      ReadBytesAppend(s, 4, t);
      ForgetExtends(ReadBytes(s, 4), ReadBytes(s + t, 4), t);
    }
  }

  // ----- integer round trips -----

  lemma {:induction false} VarintBytesShape(v: nat, n: nat)
    requires n >= 1 && v < Pow2(7 * n)
    ensures |VarintBytes(v)| <= n
    ensures VarintLen(VarintBytes(v)) == |VarintBytes(v)|
    ensures GroupSum(VarintBytes(v)) == v
  {
    if v >= 128 {
      assert n > 1 && v / 128 < Pow2(7 * (n - 1)) by {
        assert Pow2(7) == 128 by { Pow2Values(); }
        assert n > 1;
        Pow2Add(7, 7 * (n - 1));
      }
      hide Pow2;
      VarintBytesShape(v / 128, n - 1);
      assert VarintBytes(v)[1..] == VarintBytes(v / 128);
    } else {
      assert VarintBytes(v)[1..] == [];
    }
  }

  /** `pb_decode_varint` inverts `pb_encode_varint` on every 64-bit value, using
      exactly the one to ten bytes that were emitted. */
  lemma VarintRoundTrip(v: nat, t: seq<byte>)
    requires v < U64
    ensures 1 <= |VarintBytes(v)| <= 10
    ensures ReadVarint(VarintBytes(v) + t) == Got(v, t)
  {
    var n := 10;
    assert v < Pow2(7 * n) by {
      Pow2Values();
      Pow2Monotone(64, 7 * n);
    }
    VarintBytesShape(v, n);
    var s := VarintBytes(v);
    VarintLenAppend(s, t);
    assert (s + t)[..|s|] == s && (s + t)[|s|..] == t;
  }

  lemma ZigZagRoundTrip(v: int)
    requires -0x8000_0000_0000_0000 <= v < 0x8000_0000_0000_0000
    ensures UnZigZag(ZigZag(v)) == v
  {
  }

  lemma Pow2Byte(n: nat)
    ensures Pow2(8 * (n + 1)) == 256 * Pow2(8 * n)
  {
    Pow2Add(8, 8 * n);
    Pow2Values();
    assert Pow2(8) == 2 * Pow2(7);
  }

  lemma Pow2Group(n: nat)
    ensures Pow2(7 * (n + 1)) == 128 * Pow2(7 * n)
  {
    Pow2Add(7, 7 * n);
    Pow2Values();
  }

  lemma {:induction false} FixedRoundTrip(v: nat, n: nat)
    requires v < Pow2(8 * n)
    ensures LittleEndian(FixedBytes(v, n)) == v
  {
    if n > 0 {
      Pow2Byte(n - 1);
      hide Pow2;
      FixedRoundTrip(v / 256, n - 1);
      assert FixedBytes(v, n)[1..] == FixedBytes(v / 256, n - 1);
    }
  }

  lemma {:induction false} GroupSumSnoc(s: seq<byte>, b: byte)
    ensures GroupSum(s + [b]) == GroupSum(s) + b % 128 * Pow2(7 * |s|)
    ensures GroupSum(s) < Pow2(7 * |s|)
  {
    if s == [] {
      assert [b][1..] == [];
    } else {
      var p, c := Pow2(7 * (|s| - 1)), b % 128;
      Pow2Group(|s| - 1);
      hide Pow2;
      GroupSumSnoc(s[1..], b);
      assert (s + [b])[1..] == s[1..] + [b];
      ScaleProduct(c, p);
    }
  }

  lemma ScaleProduct(c: int, p: int)
    ensures 128 * (c * p) == c * (128 * p)
  {
  }

  /** The decoder's `result |= (byte & 0x7F) << bitpos` after `|s|` bytes adds the
      next group modulo the word size. */
  lemma OrGroup(s: seq<byte>, b: byte, m: nat)
    requires 7 * |s| <= m
    ensures GroupSum(s) < Pow2(m)
    ensures BitOr(GroupSum(s), ShiftLeft(b % 128, 7 * |s|, Pow2(m))) == GroupSum(s + [b]) % Pow2(m)
  {
    GroupSumSnoc(s, b);
    OrShifted(GroupSum(s), b % 128, 7 * |s|, m);
  }

  lemma OrShifted(low: nat, g: nat, n: nat, m: nat)
    requires n <= m && low < Pow2(n)
    ensures low < Pow2(m)
    ensures BitOr(low, ShiftLeft(g, n, Pow2(m))) == (low + g * Pow2(n)) % Pow2(m)
  {
    var kept := g % Pow2(m - n);
    Pow2Monotone(n, m);
    ShiftLeftKeeps(g, n, m);
    OrIsAdd(low, kept, n);
    assert Pow2(m) == Pow2(m - n) * Pow2(n) by { Pow2Add(m - n, n); }
    SplitMod(low, g, Pow2(n), Pow2(m - n));
  }

  lemma SplitMod(low: nat, x: nat, a: nat, b: nat)
    requires low < a && b > 0
    ensures (low + x * a) % (b * a) == low + x % b * a
  {
    var kept, lost := x % b, x / b;
    MulDistribute(lost, b, kept, a);
    MulAtMost(kept + 1, b, a);
    ModUnique(low + x * a, b * a, lost, low + kept * a);
  }
}
