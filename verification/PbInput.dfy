/**
  Input streams over a byte buffer and the integer readers of pb_decode.c.  Every
  reader moves bytes from what is left to what has been consumed: the end of the
  stream stays where it is.
*/
module PbInput {
  import opened Bits
  import opened PbWire

  class IStream {
    const buf: seq<byte>
    var state: nat
    var bytesLeft: nat

    ghost predicate Valid()
      reads this
    {
      state + bytesLeft <= |buf|
    }

    /** The bytes left in the stream. */
    ghost function Remaining(): seq<byte>
      requires Valid()
      reads this
    {
      buf[state..state + bytesLeft]
    }

    /** Where the stream ends in the buffer. */
    ghost function End(): nat
      reads this
    {
      state + bytesLeft
    }

    /** `pb_istream_from_buffer`. */
    constructor FromBuffer(data: seq<byte>)
      ensures Valid() && buf == data && Remaining() == data && End() == |data|
    {
      buf, state, bytesLeft := data, 0, |data|;
    }

    /** A copy limited to the next `size` bytes. */
    constructor Limited(parent: IStream, size: nat)
      requires parent.Valid() && size <= parent.bytesLeft
      ensures Valid() && buf == parent.buf && state == parent.state && bytesLeft == size
    {
      buf, state, bytesLeft := parent.buf, parent.state, size;
    }

    /** `pb_readbyte`. */
    method ReadByte() returns (ok: bool, b: byte)
      requires Valid()
      modifies this
      ensures Valid() && End() == old(End())
      ensures ok <==> old(bytesLeft) > 0
      ensures ok ==> old(Remaining()) == [b] + Remaining()
      ensures !ok ==> Remaining() == old(Remaining())
    {
      if bytesLeft == 0 {
        return false, 0;
      }
      b := buf[state];
      state := state + 1;
      bytesLeft := bytesLeft - 1;
      return true, b;
    }

    /** `pb_read` into a buffer. */
    method ReadInto(dest: array<byte>, count: nat) returns (ok: bool)
      requires Valid() && count <= dest.Length
      modifies this, dest
      ensures Valid() && End() == old(End())
      ensures ok == ReadBytes(old(Remaining()), count).Got?
      ensures ok ==> dest[..count] == ReadBytes(old(Remaining()), count).v
      ensures ok ==> Remaining() == ReadBytes(old(Remaining()), count).rest
    {
      if count == 0 {
        return true;
      }
      if bytesLeft < count {
        return false;
      }
      var source := state;
      state := state + count;
      for i := 0 to count
        invariant dest[..i] == buf[source..source + i]
        invariant state == source + count && bytesLeft == old(bytesLeft)
      {
        dest[i] := buf[source + i];
      }
      bytesLeft := bytesLeft - count;
      return true;
    }

    /** `pb_read` with a NULL buffer. */
    method Skip(count: nat) returns (ok: bool)
      requires Valid()
      modifies this
      ensures Valid() && End() == old(End())
      ensures ok == ReadBytes(old(Remaining()), count).Got?
      ensures ok ==> Remaining() == ReadBytes(old(Remaining()), count).rest
    {
      if count == 0 {
        return true;
      }
      if bytesLeft < count {
        return false;
      }
      state := state + count;
      bytesLeft := bytesLeft - count;
      return true;
    }
  }

  // ----- varints -----

  /** All bytes of `p` have a continuation bit. */
  ghost predicate Continuing(p: seq<byte>) {
    forall i :: 0 <= i < |p| ==> p[i] >= 128
  }

  lemma {:induction false} VarintLenAfter(p: seq<byte>, s: seq<byte>)
    requires Continuing(p)
    ensures VarintLen(p + s) == |p| + VarintLen(s)
  {
    if p == [] {
      assert p + s == s;
    } else {
      assert (p + s)[1..] == p[1..] + s;
      VarintLenAfter(p[1..], s);
    }
  }

  /** The varint ends with the byte after `p`. */
  lemma VarintEnds(p: seq<byte>, b: byte, s: seq<byte>)
    requires Continuing(p) && b < 128
    ensures VarintLen(p + [b] + s) == |p| + 1
    ensures (p + [b] + s)[..|p| + 1] == p + [b] && (p + [b] + s)[|p| + 1..] == s
  {
    VarintLenAfter(p, [b] + s);
    assert p + [b] + s == p + ([b] + s);
  }

  /** `pb_decode_varint`. */
  method DecodeVarint(stream: IStream) returns (ok: bool, dest: nat)
    requires stream.Valid()
    modifies stream
    ensures stream.Valid() && stream.End() == old(stream.End())
    ensures ok == ReadVarint(old(stream.Remaining())).Got?
    ensures ok ==> ReadVarint(old(stream.Remaining())) == Got(dest, stream.Remaining())
  {
    hide GroupSum, ShiftLeft, BitOr, Pow2;
    ghost var s := stream.Remaining();
    ghost var p: seq<byte> := [];
    var bitpos, result := 0, 0;
    assert GroupSum(p) == 0 by { EmptyGroups(); }
    while true
      invariant stream.Valid() && stream.End() == old(stream.End())
      invariant s == p + stream.Remaining() && Continuing(p) && |p| <= 10
      invariant bitpos == 7 * |p|
      invariant |p| < 10 ==> result == GroupSum(p)
      decreases stream.bytesLeft
    {
      VarintLenAfter(p, stream.Remaining());
      if bitpos >= 64 {
        return false, 0;
      }
      var more, b := stream.ReadByte();
      if !more {
        return false, 0;
      }
      assert s == p + [b] + stream.Remaining();
      OrGroup64(p, b);
      result := BitOr(result, ShiftLeft(b % 128, bitpos, 0x1_0000_0000_0000_0000));
      bitpos := bitpos + 7;
      if b < 128 {
        VarintEnds(p, b, stream.Remaining());
        return true, result;
      }
      p := p + [b];
    }
  }

  lemma EmptyGroups()
    ensures GroupSum([]) == 0
  {
  }

  lemma OrGroup64(p: seq<byte>, b: byte)
    requires |p| <= 9
    ensures BitOr(GroupSum(p), ShiftLeft(b % 128, 7 * |p|, 0x1_0000_0000_0000_0000)) == Word64(GroupSum(p + [b]))
    ensures |p| < 9 ==> Word64(GroupSum(p + [b])) == GroupSum(p + [b])
  {
    hide GroupSum, BitOr, ShiftLeft;
    assert Pow2(64) == 0x1_0000_0000_0000_0000 by { Pow2Values(); }
    OrGroup(p, b, 64);
    if |p| < 9 {
      GroupSumSnoc(p + [b], 0);
      Pow2Monotone(7 * (|p| + 1), 63);
      assert Pow2(63) <= Pow2(64) by { Pow2Monotone(63, 64); }
      hide Pow2;
    }
  }

  /** `pb_decode_varint32_eof`. */
  method DecodeVarint32(stream: IStream) returns (ok: bool, dest: nat, eof: bool)
    requires stream.Valid()
    modifies stream
    ensures stream.Valid() && stream.End() == old(stream.End())
    ensures ok == ReadVarint32(old(stream.Remaining())).Got?
    ensures ok ==> ReadVarint32(old(stream.Remaining())) == Got(dest, stream.Remaining())
    ensures eof <==> old(stream.Remaining()) == []
  {
    hide Varint32Byte;
    ghost var s := stream.Remaining();
    var b;
    ok, b := stream.ReadByte();
    if !ok {
      return false, 0, true;
    }
    assert s[1..] == stream.Remaining();
    if b < 128 {
      return true, b, false;
    }
    var bitpos: nat, result: nat := 7, b % 128;
    while true
      invariant stream.Valid() && stream.End() == old(stream.End())
      invariant result < U32 && bitpos < 256
      invariant ReadVarint32(s) == Varint32Tail(stream.Remaining(), bitpos, result)
      decreases stream.bytesLeft
    {
      ghost var before := stream.Remaining();
      ok, b := stream.ReadByte();
      if !ok {
        return false, 0, false;
      }
      assert before[1..] == stream.Remaining();
      var next := AddVarint32Byte(b, bitpos, result);
      if next.Bad? {
        return false, 0, false;
      }
      result := next.v;
      bitpos := (bitpos + 7) % 256;
      if b < 128 {
        if bitpos == 35 && b / 16 % 8 != 0 {
          return false, 0, false;
        }
        return true, result, false;
      }
    }
  }

  /** The body of the multi-byte loop: what one more byte does to the value. */
  method AddVarint32Byte(b: byte, bitpos: nat, result: nat) returns (r: Read<nat>)
    requires result < U32 && bitpos < 256
    ensures r == Varint32Byte(b, bitpos, result)
  {
    if bitpos >= 32 {
      var signExtension := if bitpos < 63 then 0xFF else 0x01;
      if b % 128 != 0 && (result / 0x8000_0000 == 0 || b != signExtension) {
        return Bad;
      }
      return Got(result, []);
    }
    return Got(BitOr(result, ShiftLeft(b % 128, bitpos, 0x1_0000_0000)), []);
  }

  /** `pb_decode_tag`; a zero key is the end of the message. */
  method DecodeTag(stream: IStream) returns (ok: bool, wireType: nat, tag: nat, eof: bool)
    requires stream.Valid()
    modifies stream
    ensures stream.Valid() && stream.End() == old(stream.End())
    ensures var r := ReadVarint32(old(stream.Remaining()));
      && (ok <==> r.Got? && r.v != 0)
      && (ok ==> wireType == r.v % 8 && tag == r.v / 8)
      && (r.Got? ==> stream.Remaining() == r.rest)
      && (eof <==> old(stream.Remaining()) == [] || (r.Got? && r.v == 0))
  {
    hide ReadVarint32;
    var temp;
    ok, temp, eof := DecodeVarint32(stream);
    wireType, tag := 0, 0;
    if !ok {
      return;
    }
    if temp == 0 {
      assert old(stream.Remaining()) != [] by { EmptyBad(); }
      return false, 0, 0, true;
    }
    assert old(stream.Remaining()) != [] by { EmptyBad(); }
    return true, temp % 8, temp / 8, false;
  }

  lemma EmptyBad()
    ensures ReadVarint32([]).Bad?
  {
  }

  /** `pb_decode_svarint`: the mapping back computed on 64-bit words. */
  method DecodeSvarint(stream: IStream) returns (ok: bool, dest: int)
    requires stream.Valid()
    modifies stream
    ensures stream.Valid() && stream.End() == old(stream.End())
    ensures var r := ReadVarint(old(stream.Remaining()));
      ok == r.Got? && (ok ==> dest == UnZigZag(r.v) && stream.Remaining() == r.rest)
  {
    hide ReadVarint;
    var value;
    ok, value := DecodeVarint(stream);
    if !ok {
      return false, 0;
    }
    assert value < U64 by { VarintBounded(old(stream.Remaining())); }
    if value % 2 == 1 {
      dest := Int64(0xFFFF_FFFF_FFFF_FFFF - value / 2);
    } else {
      dest := Int64(value / 2);
    }
  }

  lemma VarintBounded(s: seq<byte>)
    ensures ReadVarint(s).Got? ==> ReadVarint(s).v < U64
  {
  }

  // ----- fixed width -----

  /** `pb_decode_fixed32` and `pb_decode_fixed64`: the bytes are or-ed together. */
  method ReadFixed(stream: IStream, n: nat) returns (ok: bool, dest: nat)
    requires stream.Valid() && (n == 4 || n == 8)
    modifies stream
    ensures stream.Valid() && stream.End() == old(stream.End())
    ensures var r := ReadBytes(old(stream.Remaining()), n);
      ok == r.Got? && (ok ==> dest == LittleEndian(r.v) && stream.Remaining() == r.rest)
  {
    var bytes := new byte[n];
    ok := stream.ReadInto(bytes, n);
    if !ok {
      return false, 0;
    }
    dest := OrBytes(bytes[..]);
    assert bytes[..] == bytes[..n];
  }

  method OrBytes(b: seq<byte>) returns (v: nat)
    requires |b| == 4 || |b| == 8
    ensures v == LittleEndian(b)
  {
    hide LittleEndian, BitOr;
    v := 0;
    assert LittleEndian(b[..0]) == 0 by { assert b[..0] == []; NoBytes(); }
    for i := 0 to |b|
      invariant v == LittleEndian(b[..i])
    {
      assert b[..i + 1] == b[..i] + [b[i]];
      LittleEndianSnoc(b[..i], b[i]);
      v := BitOr(v, b[i] * Pow2(8 * i));
    }
    assert b[..|b|] == b;
  }

  lemma NoBytes()
    ensures LittleEndian([]) == 0
  {
  }

  lemma {:induction false} LittleEndianSnoc(s: seq<byte>, b: byte)
    ensures LittleEndian(s) < Pow2(8 * |s|)
    ensures LittleEndian(s + [b]) == LittleEndian(s) + b * Pow2(8 * |s|)
    ensures LittleEndian(s + [b]) == BitOr(LittleEndian(s), b * Pow2(8 * |s|))
  {
    LittleEndianSum(s, b);
    OrIsAdd(LittleEndian(s), b, 8 * |s|);
  }

  lemma {:induction false} LittleEndianSum(s: seq<byte>, b: byte)
    ensures LittleEndian(s) < Pow2(8 * |s|)
    ensures LittleEndian(s + [b]) == LittleEndian(s) + b * Pow2(8 * |s|)
  {
    if s == [] {
      assert [b][1..] == [];
    } else {
      var p := Pow2(8 * (|s| - 1));
      Pow2Byte(|s| - 1);
      hide Pow2;
      LittleEndianSum(s[1..], b);
      assert (s + [b])[1..] == s[1..] + [b];
      ScaleByte(b, p);
    }
  }

  lemma ScaleByte(b: int, p: int)
    ensures 256 * (b * p) == b * (256 * p)
  {
  }

  // ----- skipping and substreams -----

  /** `pb_skip_varint`. */
  method SkipOverVarint(stream: IStream) returns (ok: bool)
    requires stream.Valid()
    modifies stream
    ensures stream.Valid() && stream.End() == old(stream.End())
    ensures var r := SkipVarint(old(stream.Remaining()));
      ok == r.Got? && (ok ==> stream.Remaining() == r.rest)
  {
    hide SkipVarint, Continuing;
    ghost var s := stream.Remaining();
    ghost var p: seq<byte> := [];
    NoneContinue();
    while true
      invariant stream.Valid() && stream.End() == old(stream.End())
      invariant s == p + stream.Remaining() && Continuing(p)
      decreases stream.bytesLeft
    {
      var more, b := stream.ReadByte();
      if !more {
        SkipRunsOut(s, p);
        return false;
      }
      Regroup(p, b, stream.Remaining());
      if b < 128 {
        SkipEnds(p, b, stream.Remaining());
        return true;
      }
      ContinueWith(p, b);
      p := p + [b];
    }
  }

  lemma Regroup(p: seq<byte>, b: byte, rest: seq<byte>)
    ensures p + ([b] + rest) == p + [b] + rest
  {
  }

  lemma NoneContinue()
    ensures Continuing([])
  {
  }

  lemma ContinueWith(p: seq<byte>, b: byte)
    requires Continuing(p) && b >= 128
    ensures Continuing(p + [b])
  {
  }

  lemma SkipRunsOut(s: seq<byte>, p: seq<byte>)
    requires Continuing(p) && s == p + []
    ensures SkipVarint(s).Bad?
  {
    VarintLenAfter(p, []);
  }

  lemma SkipEnds(p: seq<byte>, b: byte, rest: seq<byte>)
    requires Continuing(p) && b < 128
    ensures SkipVarint(p + [b] + rest) == Got((), rest)
  {
    VarintEnds(p, b, rest);
  }

  /** `pb_skip_string`. */
  method SkipString(stream: IStream) returns (ok: bool)
    requires stream.Valid()
    modifies stream
    ensures stream.Valid() && stream.End() == old(stream.End())
    ensures var r := ReadSubstream(old(stream.Remaining()));
      ok == r.Got? && (ok ==> stream.Remaining() == r.rest)
  {
    hide ReadVarint32;
    var length, eof;
    ok, length, eof := DecodeVarint32(stream);
    if ok {
      ok := stream.Skip(length);
    }
  }

  /** `pb_skip_field`. */
  method SkipOverField(stream: IStream, wireType: nat) returns (ok: bool)
    requires stream.Valid()
    modifies stream
    ensures stream.Valid() && stream.End() == old(stream.End())
    ensures var r := SkipField(wireType, old(stream.Remaining()));
      ok == r.Got? && (ok ==> stream.Remaining() == r.rest)
  {
    hide SkipVarint, ReadSubstream;
    if wireType == WT_VARINT {
      ok := SkipOverVarint(stream);
    } else if wireType == WT_64BIT {
      ok := stream.Skip(8);
    } else if wireType == WT_STRING {
      ok := SkipString(stream);
    } else if wireType == WT_32BIT {
      ok := stream.Skip(4);
    } else {
      ok := false;
    }
  }

  /** `pb_make_string_substream`: the bytes left are split between the substream and the
      stream, which stays at the start of the payload until the substream is closed. */
  method MakeSubstream(stream: IStream) returns (ok: bool, substream: IStream)
    requires stream.Valid()
    modifies stream
    ensures stream.Valid()
    ensures ok == ReadSubstream(old(stream.Remaining())).Got?
    ensures ok ==> fresh(substream) && substream.Valid() && substream.buf == stream.buf
    ensures ok ==> substream.state == stream.state
    ensures ok ==> substream.End() + stream.bytesLeft == old(stream.End())
    ensures ok ==> substream.bytesLeft < old(stream.bytesLeft)
    ensures ok ==> ReadSubstream(old(stream.Remaining())) ==
                   Got(substream.Remaining(), stream.buf[substream.End()..substream.End() + stream.bytesLeft])
    ensures !ok ==> stream.End() <= old(stream.End())
  {
    hide ReadVarint32;
    substream := stream;
    var size, eof;
    ok, size, eof := DecodeVarint32(stream);
    if !ok {
      return;
    }
    if stream.bytesLeft < size {
      return false, stream;
    }
    ghost var rest := stream.Remaining();
    substream := new IStream.Limited(stream, size);
    stream.bytesLeft := stream.bytesLeft - size;
    assert rest[..size] == substream.Remaining();
    assert rest[size..] == stream.buf[substream.End()..substream.End() + stream.bytesLeft];
  }

  /** `pb_close_string_substream`: however much of the substream was read, the stream goes on
      right after the payload. */
  method CloseSubstream(stream: IStream, substream: IStream) returns (ok: bool)
    requires stream != substream && substream.Valid() && substream.buf == stream.buf
    requires substream.End() + stream.bytesLeft <= |stream.buf|
    modifies stream, substream
    ensures ok && stream.Valid()
    ensures stream.state == old(substream.End()) && stream.bytesLeft == old(stream.bytesLeft)
  {
    if substream.bytesLeft > 0 {
      ok := substream.Skip(substream.bytesLeft);
      if !ok {
        assert false;
      }
    }
    stream.state := substream.state;
    return true;
  }
}
