/**
  `pb_decode_varint32_eof` against `pb_decode_varint`.  The 32-bit reader looks at
  the bytes beyond the fifth only to tell sign extension from overflow; these
  lemmas say which encodings that lets through and what value comes out.
*/
module PbVarint32 {
  import opened Bits
  import opened PbWire

  // ----- agreement with the 64-bit reader -----

  /** The reader applied to a stream whose first bytes `p` have been consumed. */
  ghost predicate AgreesAfter(p: seq<byte>, s: seq<byte>, r: Read<nat>) {
    r.Got? ==>
      && VarintLen(s) <= |s|
      && r == Got(Word32(GroupSum(p + s[..VarintLen(s)])), s[VarintLen(s)..])
  }

  lemma {:induction false} TailAgrees(p: seq<byte>, s: seq<byte>)
    requires |p| >= 1 && |p| + VarintLen(s) <= 10
    ensures AgreesAfter(p, s, Varint32Tail(s, 7 * |p|, Word32(GroupSum(p))))
    decreases |s|
  {
    hide GroupSum, Varint32Byte, Word32;
    if s != [] && Varint32Byte(s[0], 7 * |p|, Word32(GroupSum(p))).Got? {
      ByteAgrees(p, s[0]);
      var p' := p + [s[0]];
      assert (7 * |p| + 7) % 256 == 7 * |p'|;
      if s[0] >= 128 {
        TailAgrees(p', s[1..]);
        AgreesShift(p, s, Varint32Tail(s[1..], 7 * |p'|, Word32(GroupSum(p'))));
      } else {
        assert s[..1] == [s[0]];
      }
    }
  }

  lemma AgreesShift(p: seq<byte>, s: seq<byte>, r: Read<nat>)
    requires s != [] && s[0] >= 128
    requires AgreesAfter(p + [s[0]], s[1..], r)
    ensures AgreesAfter(p, s, r)
  {
    var n := VarintLen(s);
    assert n == 1 + VarintLen(s[1..]);
    if n <= |s| {
      assert p + [s[0]] + s[1..][..n - 1] == p + s[..n];
      assert s[1..][n - 1..] == s[n..];
    }
  }

  /** One step of the 32-bit loop keeps the low 32 bits of the group sum. */
  lemma ByteAgrees(p: seq<byte>, b: byte)
    requires 1 <= |p| <= 9
    requires Varint32Byte(b, 7 * |p|, Word32(GroupSum(p))).Got?
    ensures Varint32Byte(b, 7 * |p|, Word32(GroupSum(p))).v == Word32(GroupSum(p + [b]))
  {
    var n := 7 * |p|;
    if n >= 32 {
      HighGroupVanishes(p, b);
    } else {
      assert Pow2(32) == U32 by { Pow2Values(); }
      OrGroup(p, b, 32);
      assert Word32(GroupSum(p)) == GroupSum(p);
    }
  }

  lemma HighGroupVanishes(p: seq<byte>, b: byte)
    requires 7 * |p| >= 32
    ensures Word32(GroupSum(p + [b])) == Word32(GroupSum(p))
  {
    hide Pow2, GroupSum;
    var n := 7 * |p|;
    GroupSumSnoc(p, b);
    Pow2Add(n - 32, 32);
    assert Pow2(32) == 0x1_0000_0000 by { Pow2Values(); }
    MultipleOfWord(GroupSum(p), b % 128, Pow2(n - 32));
  }

  lemma MultipleOfWord(x: nat, g: nat, k: nat)
    ensures Word32(x + g * (k * 0x1_0000_0000)) == Word32(x)
  {
    assert g * (k * 0x1_0000_0000) == g * k * 0x1_0000_0000;
    AddMultiple(x, g * k, 0x1_0000_0000);
  }

  /** Whatever varint of at most ten bytes the 32-bit reader accepts, the 64-bit reader
      accepts too: it consumes the same bytes and has the same low 32 bits. */
  lemma Varint32Agrees(s: seq<byte>)
    requires VarintLen(s) <= 10
    requires ReadVarint32(s).Got?
    ensures ReadVarint(s).Got?
    ensures ReadVarint32(s).rest == ReadVarint(s).rest
    ensures ReadVarint32(s).v == Word32(ReadVarint(s).v)
  {
    var n := VarintLen(s);
    var b := s[0];
    assert GroupSum([b]) == b % 128 by { assert [b][1..] == []; }
    if b >= 128 {
      TailAgrees([b], s[1..]);
      assert [] + [b] == [b];
      AgreesShift([], s, ReadVarint32(s));
      assert [] + s[..n] == s[..n];
    } else {
      assert s[..1] == [b];
    }
    ModOfMod(GroupSum(s[..n]));
  }

  lemma ModOfMod(x: nat)
    ensures Word32(Word64(x)) == Word32(x)
  {
  }

  // ----- which canonical encodings are accepted -----

  /** What is left of a value above bit `7 * k` is ten-byte sign extension: the groups up
      to the ninth are all-ones (or empty), and the tenth byte is 1. */
  predicate SignGroups(w: nat, k: nat)
    requires k <= 9
    decreases 9 - k
  {
    if k == 9 then w == 1
    else w >= 128 && (w % 128 == 0 || w % 128 == 127) && SignGroups(w / 128, k + 1)
  }

  /** The bytes from the sixth on. */
  lemma {:induction false} HighTail(w: nat, k: nat, r: nat, t: seq<byte>)
    requires 5 <= k <= 9 && r < U32 && 1 <= w < Pow2(64 - 7 * k)
    ensures Varint32Tail(VarintBytes(w) + t, 7 * k, r) ==
            if r >= 0x8000_0000 && SignGroups(w, k) then Got(r, t) else Bad
    decreases 9 - k
  {
    hide Varint32Tail, Pow2;
    Pow2One();
    if w >= 128 {
      var b, s := w % 128 + 128, VarintBytes(w / 128) + t;
      assert VarintBytes(w) + t == [b] + s;
      HighByte(b, s, k, r);
      HighBound(w, k);
      HighTail(w / 128, k + 1, r, t);
    } else {
      assert VarintBytes(w) + t == [w] + t;
      HighByte(w, t, k, r);
    }
  }

  lemma Pow2One()
    ensures Pow2(64 - 7 * 9) == 2
  {
  }

  /** One byte after the fifth. */
  lemma HighByte(b: byte, s: seq<byte>, k: nat, r: nat)
    requires 5 <= k <= 9 && r < U32
    ensures Varint32Tail([b] + s, 7 * k, r) ==
            if b % 128 != 0 && (r < 0x8000_0000 || b != (if k < 9 then 0xFF else 0x01)) then Bad
            else if b >= 128 then Varint32Tail(s, 7 * (k + 1), r)
            else Got(r, s)
  {
    assert ([b] + s)[1..] == s;
  }

  lemma HighBound(w: nat, k: nat)
    requires k <= 9 && 128 <= w < Pow2(64 - 7 * k)
    ensures k < 9 && w / 128 < Pow2(64 - 7 * (k + 1))
  {
    assert Pow2(7) == 128 by { Pow2Values(); }
    if k < 9 {
      Pow2Add(64 - 7 * (k + 1), 7);
    }
  }

  /** What the 32-bit reader makes of the canonical encoding of `v`. */
  function Canonical32(v: nat, t: seq<byte>): Read<nat> {
    if Accepted32(v) then Got(Word32(v), t) else Bad
  }

  /** Bytes two to five. */
  lemma {:induction false} LowTail(p: seq<byte>, w: nat, t: seq<byte>)
    requires 1 <= |p| <= 4 && 1 <= w < Pow2(64 - 7 * |p|)
    ensures Varint32Tail(VarintBytes(w) + t, 7 * |p|, Word32(GroupSum(p))) ==
            Canonical32(GroupSum(p) + w * Pow2(7 * |p|), t)
    decreases 4 - |p|
  {
    hide Varint32Tail, GroupSum, Pow2, Word32, Accepted32;
    if w < 128 {
      LastLowByte(p, w, t);
    } else {
      var p' := p + [w % 128 + 128];
      TailStep(p, w % 128 + 128, VarintBytes(w / 128) + t);
      assert VarintBytes(w) + t == [w % 128 + 128] + (VarintBytes(w / 128) + t);
      HighBound(w, |p|);
      NextGroup(p, w);
      if |p| < 4 {
        LowTail(p', w / 128, t);
      } else {
        HighTail(w / 128, 5, Word32(GroupSum(p')), t);
        FiveGroups(p', w / 128);
      }
    }
  }

  /** A continuation byte among the first five only extends the consumed prefix. */
  lemma TailStep(p: seq<byte>, b: byte, s: seq<byte>)
    requires 1 <= |p| <= 4 && b >= 128
    ensures Varint32Tail([b] + s, 7 * |p|, Word32(GroupSum(p))) ==
            Varint32Tail(s, 7 * (|p| + 1), Word32(GroupSum(p + [b])))
  {
    hide GroupSum, ShiftLeft, BitOr, Word32;
    assert ([b] + s)[1..] == s;
    ByteAgrees(p, b);
  }

  lemma NextGroup(p: seq<byte>, w: nat)
    requires w >= 128
    ensures GroupSum(p) + w * Pow2(7 * |p|) ==
            GroupSum(p + [w % 128 + 128]) + w / 128 * Pow2(7 * (|p| + 1))
  {
    hide Pow2, GroupSum;
    var a := Pow2(7 * |p|);
    GroupSumSnoc(p, w % 128 + 128);
    Pow2Group(|p|);
    SplitGroup(GroupSum(p), w, a, 128 * a);
  }

  lemma SplitGroup(low: nat, w: nat, a: nat, a': nat)
    requires a' == 128 * a
    ensures low + w * a == (low + w % 128 * a) + w / 128 * a'
  {
    MulDistribute(w / 128, 128, w % 128, a);
  }

  lemma Pow2Small()
    ensures Pow2(14) == 0x4000 && Pow2(21) == 0x20_0000 && Pow2(28) == 0x1000_0000 && Pow2(35) == 0x8_0000_0000
  {
    Pow2Values();
    Pow2Add(7, 7);
    Pow2Add(14, 7);
    Pow2Add(21, 7);
    Pow2Add(28, 7);
  }

  lemma LastLowByte(p: seq<byte>, w: nat, t: seq<byte>)
    requires 1 <= |p| <= 4 && 1 <= w < 128
    ensures Varint32Tail(VarintBytes(w) + t, 7 * |p|, Word32(GroupSum(p))) ==
            Canonical32(GroupSum(p) + w * Pow2(7 * |p|), t)
  {
    hide GroupSum, ShiftLeft, BitOr, Word32, Pow2, Accepted32;
    var s := VarintBytes(w) + t;
    assert s[0] == w && s[1..] == t;
    GroupSumSnoc(p, w);
    ByteAgrees(p, w);
    LastLowValue(p, w);
  }

  lemma LastLowValue(p: seq<byte>, w: nat)
    requires 1 <= |p| <= 4 && 1 <= w < 128
    ensures Accepted32(GroupSum(p) + w * Pow2(7 * |p|)) <==> !(|p| == 4 && w / 16 % 8 != 0)
  {
    var a := Pow2(7 * |p|);
    assert GroupSum(p) < a by { GroupSumSnoc(p, 0); }
    hide GroupSum, Pow2;
    if |p| < 4 {
      assert a <= 0x20_0000 by {
        Pow2Monotone(7 * |p|, 21);
        Pow2Small();
      }
      MulAtMost(w, 127, a);
    } else {
      assert a == 0x1000_0000 by { Pow2Small(); }
      FifthByte(GroupSum(p), w);
    }
  }

  lemma FifthByte(low: nat, w: nat)
    requires low < 0x1000_0000 && 1 <= w < 128
    ensures Accepted32(low + w * 0x1000_0000) <==> w / 16 % 8 == 0
  {
    var v := low + w * 0x1000_0000;
    assert v < U32 <==> w < 16;
    assert v / 0x8_0000_0000 == 0;
    assert !SignGroups(0, 5);
  }

  lemma FiveGroups(p: seq<byte>, w: nat)
    requires |p| == 5 && w >= 1
    ensures var v := GroupSum(p) + w * Pow2(35);
      && Word32(v) == Word32(GroupSum(p))
      && (Accepted32(v) <==> Word32(GroupSum(p)) >= 0x8000_0000 && SignGroups(w, 5))
  {
    var low := GroupSum(p);
    assert Pow2(35) == 0x8_0000_0000 by { Pow2Small(); }
    assert low < Pow2(7 * 5) by { GroupSumSnoc(p, 0); }
    hide Pow2, GroupSum, SignGroups;
    HighPart(low, w);
  }

  lemma HighPart(low: nat, w: nat)
    requires low < 0x8_0000_0000 && w >= 1
    ensures var v := low + w * 0x8_0000_0000;
      v >= U32 && v / 0x8_0000_0000 == w && Word32(v) == Word32(low)
  {
    AddMultiple(low, w * 8, 0x1_0000_0000);
  }

  /** The exact set of values whose canonical encoding `pb_decode_varint32` accepts. */
  predicate Accepted32(v: nat) {
    v < U32 || (Word32(v) >= 0x8000_0000 && SignGroups(v / 0x8_0000_0000, 5))
  }

  /** `pb_decode_varint32` accepts the canonical encoding of `v` if and only if
      `Accepted32(v)`, and then returns its low 32 bits. */
  lemma Varint32Canonical(v: nat, t: seq<byte>)
    requires v < U64
    ensures ReadVarint32(VarintBytes(v) + t) == Canonical32(v, t)
  {
    hide Varint32Tail, Accepted32, Word32, Pow2, GroupSum;
    if v < 128 {
      assert (VarintBytes(v) + t)[1..] == t;
      SmallAccepted(v);
    } else {
      hide VarintBytes, ReadVarint32;
      LongVarint(v, t);
      var b := v % 128 + 128;
      OneGroup(b);
      assert Pow2(7) == 128 && v / 128 < Pow2(64 - 7) by {
        Pow2Values();
        Pow2Add(57, 7);
      }
      LowTail([b], v / 128, t);
    }
  }

  lemma LongVarint(v: nat, t: seq<byte>)
    requires v >= 128
    ensures ReadVarint32(VarintBytes(v) + t) == Varint32Tail(VarintBytes(v / 128) + t, 7, v % 128)
  {
    hide Varint32Tail;
    assert (VarintBytes(v) + t)[1..] == VarintBytes(v / 128) + t;
  }

  lemma SmallAccepted(v: nat)
    requires v < U32
    ensures Accepted32(v) && Word32(v) == v
  {
  }

  lemma OneGroup(b: byte)
    ensures GroupSum([b]) == b % 128
  {
    assert [b][1..] == [];
  }

  lemma {:induction false} SignGroupsLarge(w: nat, k: nat)
    requires k <= 9 && SignGroups(w, k)
    ensures w >= Pow2(7 * (9 - k))
    decreases 9 - k
  {
    if k < 9 {
      SignGroupsLarge(w / 128, k + 1);
      Pow2Group(9 - (k + 1));
      hide Pow2;
      assert w >= 128 * (w / 128);
    }
  }

  lemma {:induction false} SignGroupsOnes(w: nat, k: nat)
    requires 1 <= k <= 9 && w == Pow2(64 - 7 * k) - 1
    ensures SignGroups(w, k)
    decreases 9 - k
  {
    if k < 9 {
      var i := 64 - 7 * (k + 1);
      assert Pow2(64 - 7 * k) == 128 * Pow2(i) && Pow2(i) >= 2 by {
        Pow2Add(7, i);
        Pow2Values();
        assert Pow2(i) == 2 * Pow2(i - 1);
      }
      hide Pow2;
      assert w == 128 * (Pow2(i) - 1) + 127;
      SignGroupsOnes(w / 128, k + 1);
    } else {
      assert Pow2(64 - 7 * k) == 2;
    }
  }

  /** Values below 2^32 are read back, a negative `int32_t` written as a sign-extended
      64-bit varint is read back as its 32-bit pattern, and everything from 2^32 up to
      2^63 is rejected. */
  lemma Varint32Ranges(v: nat, t: seq<byte>)
    requires v < U64
    ensures v < U32 ==> ReadVarint32(VarintBytes(v) + t) == Got(v, t)
    ensures v >= U64 - 0x8000_0000 ==> ReadVarint32(VarintBytes(v) + t) == Got(Word32(v), t)
    ensures U32 <= v < 0x8000_0000_0000_0000 ==> ReadVarint32(VarintBytes(v) + t).Bad?
  {
    Varint32Canonical(v, t);
    if U32 <= v < 0x8000_0000_0000_0000 {
      if SignGroups(v / 0x8_0000_0000, 5) {
        SignGroupsLarge(v / 0x8_0000_0000, 5);
        Pow2Small();
      }
    }
    if v >= U64 - 0x8000_0000 {
      NegativeAccepted(v);
    }
  }

  lemma NegativeAccepted(v: nat)
    requires U64 - 0x8000_0000 <= v < U64
    ensures Accepted32(v)
  {
    assert v / 0x8_0000_0000 == 0x1FFF_FFFF;
    assert Word32(v) >= 0x8000_0000;
    assert Pow2(29) == 0x2000_0000 by {
      Pow2Small();
      Pow2Add(28, 1);
    }
    SignGroupsOnes(v / 0x8_0000_0000, 5);
  }
}
