/**
  Output streams and the integer writers of pb_encode.c.  A stream either stores
  into a buffer or, with a NULL callback, only counts.
*/
module PbOutput {
  import opened Bits
  import opened PbWire
  import opened PbEncodeSpec

  /** The observable state of an output stream. */
  datatype Snapshot = Snapshot(sizing: bool, maxSize: nat, bytesWritten: nat, state: nat, store: seq<byte>)

  /** `data` was written at the position and nothing else was touched. */
  ghost predicate Appended(a: Snapshot, b: Snapshot, data: seq<byte>) {
    && b.bytesWritten == a.bytesWritten + |data|
    && b.state == a.state + |data| <= |a.store|
    && b.store == a.store[..a.state] + data + a.store[b.state..]
  }

  /** From `a` to `b` the stream took the emission `e`, and reported `ok`.  A counting
      stream never runs full, and counts modulo 2^64; a storing stream succeeds exactly when
      everything fits. */
  ghost predicate Took(a: Snapshot, b: Snapshot, e: Emission, ok: bool) {
    && a.sizing == b.sizing && a.maxSize == b.maxSize
    && (ok <==> e.ok && (a.sizing || a.bytesWritten + |e.bytes| <= a.maxSize))
    && (ok && a.sizing ==> b.bytesWritten == Word64(a.bytesWritten + |e.bytes|))
    && (ok && !a.sizing ==> Appended(a, b, e.bytes))
  }

  /** The number of bytes a storing stream may be asked for fits in a `size_t`. */
  ghost predicate InRange(a: Snapshot, e: Emission) {
    !a.sizing ==> a.bytesWritten + |e.bytes| < U64
  }

  lemma Word64Add(x: nat, y: nat)
    ensures Word64(Word64(x) + y) == Word64(x + y)
    ensures Word64(x + Word64(y)) == Word64(x + y)
  {
    Reduced(x, y);
    Reduced(y, x);
  }

  lemma Reduced(x: nat, y: nat)
    ensures Word64(Word64(x) + y) == Word64(x + y)
  {
    var k := x / 0x1_0000_0000_0000_0000;
    assert x + y == Word64(x) + y + k * 0x1_0000_0000_0000_0000;
    AddMultiple(Word64(x) + y, k, 0x1_0000_0000_0000_0000);
  }

  lemma AppendedTwice(a: Snapshot, b: Snapshot, c: Snapshot, d1: seq<byte>, d2: seq<byte>)
    requires Appended(a, b, d1) && Appended(b, c, d2)
    ensures Appended(a, c, d1 + d2)
  {
    assert b.store[..b.state] == a.store[..a.state] + d1;
    assert b.store[c.state..] == a.store[c.state..];
  }

  lemma TookThen(a: Snapshot, b: Snapshot, c: Snapshot, e1: Emission, e2: Emission, ok: bool)
    requires Took(a, b, e1, true) && Took(b, c, e2, ok)
    ensures Took(a, c, Then(e1, e2), ok)
  {
    if a.sizing {
      Word64Add(a.bytesWritten + |e1.bytes|, |e2.bytes|);
    } else if ok {
      AppendedTwice(a, b, c, e1.bytes, e2.bytes);
    }
  }

  lemma TookFailed(a: Snapshot, b: Snapshot, e1: Emission, e2: Emission)
    requires Took(a, b, e1, false)
    ensures Took(a, b, Then(e1, e2), false)
  {
  }

  lemma TookNothing(a: Snapshot)
    requires a.bytesWritten < U64 && (!a.sizing ==> a.bytesWritten <= a.maxSize && a.state <= |a.store|)
    ensures Took(a, a, NOTHING, true)
  {
    if !a.sizing {
      assert a.store[..a.state] + [] + a.store[a.state..] == a.store;
    }
  }

  lemma InRangeThen(a: Snapshot, b: Snapshot, e1: Emission, e2: Emission)
    requires InRange(a, Then(e1, e2))
    ensures InRange(a, e1)
    ensures Took(a, b, e1, true) ==> InRange(b, e2)
  {
  }

  /** The next part of an emission is in range. */
  lemma PartInRange(a: Snapshot, b: Snapshot, done: Emission, e: Emission, rest: Emission)
    requires Took(a, b, done, true) && InRange(a, Then(done, Then(e, rest)))
    ensures InRange(b, e)
  {
    hide Took, InRange, Then;
    InRangeThen(a, b, done, Then(e, rest));
    InRangeThen(b, b, e, rest);
  }

  /** Taking the next part of an emission. */
  lemma PartTaken(a: Snapshot, b: Snapshot, c: Snapshot, done: Emission, e: Emission, rest: Emission, ok: bool)
    requires Took(a, b, done, true) && Took(b, c, e, ok)
    ensures Then(Then(done, e), rest) == Then(done, Then(e, rest))
    ensures Took(a, c, Then(done, e), ok)
    ensures !ok ==> Took(a, c, Then(done, Then(e, rest)), false)
  {
    hide Took, Then;
    ThenAssociative(done, e, rest);
    TookThen(a, b, c, done, e, ok);
    if !ok {
      TookFailed(a, c, Then(done, e), rest);
    }
  }

  class OStream {
    const sizing: bool
    const maxSize: nat
    const buf: array<byte>
    var state: nat
    var bytesWritten: nat

    ghost predicate Valid()
      reads this
    {
      && bytesWritten < U64
      && (!sizing ==> bytesWritten <= maxSize < U64 && state + (maxSize - bytesWritten) <= buf.Length)
    }

    ghost function Snap(): Snapshot
      reads this, buf
    {
      Snapshot(sizing, maxSize, bytesWritten, state, buf[..])
    }

    /** `pb_ostream_from_buffer`. */
    constructor FromBuffer(storage: array<byte>, size: nat)
      requires size <= storage.Length && size < U64
      ensures Valid() && !sizing && buf == storage && maxSize == size && state == 0 && bytesWritten == 0
    {
      sizing, buf, maxSize, state, bytesWritten := false, storage, size, 0, 0;
    }

    /** `PB_OSTREAM_SIZING`. */
    constructor Sizing()
      ensures Valid() && sizing && bytesWritten == 0 && fresh(buf)
    {
      sizing, buf, maxSize, state, bytesWritten := true, new byte[0], 0, 0, 0;
    }

    /** The substream `pb_encode_submessage` writes a body of known size to. */
    constructor Within(parent: OStream, size: nat)
      requires parent.Valid() && !parent.sizing && parent.bytesWritten + size <= parent.maxSize
      ensures Valid() && !sizing && buf == parent.buf && maxSize == size
      ensures state == parent.state && bytesWritten == 0
    {
      sizing, buf, maxSize, state, bytesWritten := false, parent.buf, size, parent.state, 0;
    }

    /** `buf_write`. */
    method BufWrite(data: seq<byte>)
      requires state + |data| <= buf.Length
      modifies this`state, buf
      ensures state == old(state) + |data|
      ensures buf[..] == old(buf[..])[..old(state)] + data + old(buf[..])[state..]
    {
      var dest := state;
      state := dest + |data|;
      for i := 0 to |data|
        invariant state == dest + |data|
        invariant buf[..] == old(buf[..])[..dest] + data[..i] + old(buf[..])[dest + i..]
      {
        buf[dest + i] := data[i];
      }
      assert data[..|data|] == data;
    }

    /** `pb_write`. */
    method Write(data: seq<byte>) returns (ok: bool)
      requires Valid() && |data| < U64
      modifies this, buf
      ensures Valid()
      ensures Took(old(Snap()), Snap(), Emission(true, data), ok)
    {
      if |data| > 0 && !sizing {
        if Word64(bytesWritten + |data|) < bytesWritten || Word64(bytesWritten + |data|) > maxSize {
          SumTooLarge(bytesWritten, |data|, maxSize);
          return false;
        }
        SumFits(bytesWritten, |data|, maxSize);
        BufWrite(data);
      }
      bytesWritten := Word64(bytesWritten + |data|);
      if data == [] && !sizing {
        assert buf[..] == buf[..][..state] + [] + buf[..][state..];
      }
      return true;
    }

    /** `pb_write` with a NULL buffer, on a counting stream. */
    method Count(size: nat)
      requires Valid() && sizing && size < U64
      modifies this`bytesWritten
      ensures Valid()
      ensures bytesWritten == Word64(old(bytesWritten) + size)
    {
      bytesWritten := Word64(bytesWritten + size);
    }
  }

  /** The overflow test `bytes_written + count < bytes_written || … > max_size` on wrapping
      sums rejects exactly the counts that do not fit. */
  lemma SumTooLarge(written: nat, count: nat, max: nat)
    requires written <= max < U64 && count < U64
    requires Word64(written + count) < written || Word64(written + count) > max
    ensures written + count > max
  {
  }

  lemma SumFits(written: nat, count: nat, max: nat)
    requires written <= max < U64 && count < U64
    requires !(Word64(written + count) < written || Word64(written + count) > max)
    ensures written + count <= max && Word64(written + count) == written + count
  {
  }

  // ----- integer writers -----

  /** The 7-bit groups of `v`, all with a continuation bit. */
  function Continued(v: nat): seq<byte> {
    if v == 0 then [] else [v % 128 + 128] + Continued(v / 128)
  }

  lemma {:induction false} ContinuedIsVarint(v: nat)
    requires v > 0
    ensures var c := Continued(v);
      |c| > 0 && VarintBytes(v) == c[..|c| - 1] + [c[|c| - 1] % 128]
  {
    if v >= 128 {
      ContinuedIsVarint(v / 128);
    } else {
      assert Continued(v) == [v + 128];
    }
  }

  lemma ContinuedLength(v: nat)
    requires 0 < v < U64
    ensures |Continued(v)| <= 10
  {
    ContinuedIsVarint(v);
    VarintRoundTrip(v, []);
  }

  /** The loop of `pb_encode_varint`: groups into a local buffer. */
  method FillGroups(v: nat, buffer: array<byte>) returns (i: nat)
    requires 0 < v < U64 && buffer.Length == 10
    modifies buffer
    ensures 0 < i <= 10 && buffer[..i] == Continued(v)
  {
    ContinuedLength(v);
    i := 0;
    var value := v;
    while value != 0
      invariant 0 <= i <= 10
      invariant buffer[..i] + Continued(value) == Continued(v)
      decreases value
    {
      assert i + |Continued(value)| == |Continued(v)|;
      ghost var before := buffer[..i];
      buffer[i] := value % 128 + 128;
      assert buffer[..i + 1] == before + [value % 128 + 128];
      value := value / 128;
      i := i + 1;
    }
  }

  /** `pb_encode_varint`. */
  method EncodeVarint(stream: OStream, v: nat) returns (ok: bool)
    requires stream.Valid() && v < U64
    modifies stream, stream.buf
    ensures stream.Valid()
    ensures Took(old(stream.Snap()), stream.Snap(), Emission(true, VarintBytes(v)), ok)
  {
    if v <= 0x7F {
      ok := stream.Write([v]);
      return;
    }
    var buffer := new byte[10];
    var i := FillGroups(v, buffer);
    ContinuedIsVarint(v);
    buffer[i - 1] := buffer[i - 1] % 128;
    assert buffer[..i] == VarintBytes(v);
    ok := stream.Write(buffer[..i]);
  }

  /** `pb_encode_svarint`: the zigzag mapping computed on 64-bit words. */
  method EncodeSvarint(stream: OStream, v: int) returns (ok: bool)
    requires stream.Valid() && -0x8000_0000_0000_0000 <= v < 0x8000_0000_0000_0000
    modifies stream, stream.buf
    ensures stream.Valid()
    ensures Took(old(stream.Snap()), stream.Snap(), Emission(true, VarintBytes(ZigZag(v))), ok)
  {
    var doubled := Word64(2 * Word64(v));
    var zigzagged := if v < 0 then 0xFFFF_FFFF_FFFF_FFFF - doubled else doubled;
    assert zigzagged == ZigZag(v);
    ok := EncodeVarint(stream, zigzagged);
  }

  /** `pb_encode_fixed32` and `pb_encode_fixed64`. */
  method EncodeFixed32(stream: OStream, v: nat) returns (ok: bool)
    requires stream.Valid() && v < U32
    modifies stream, stream.buf
    ensures stream.Valid()
    ensures Took(old(stream.Snap()), stream.Snap(), Emission(true, FixedBytes(v, 4)), ok)
  {
    var bytes: seq<byte> := [v % 256, v / 0x100 % 256, v / 0x1_0000 % 256, v / 0x100_0000 % 256];
    FixedBytesUnroll4(v);
    ok := stream.Write(bytes);
  }

  method EncodeFixed64(stream: OStream, v: nat) returns (ok: bool)
    requires stream.Valid() && v < U64
    modifies stream, stream.buf
    ensures stream.Valid()
    ensures Took(old(stream.Snap()), stream.Snap(), Emission(true, FixedBytes(v, 8)), ok)
  {
    var w := v / 0x1_0000_0000;
    var bytes: seq<byte> := [v % 256, v / 0x100 % 256, v / 0x1_0000 % 256, v / 0x100_0000 % 256,
                             w % 256, w / 0x100 % 256, w / 0x1_0000 % 256, w / 0x100_0000 % 256];
    FixedBytesSplit(v, 4, 4);
    DropFour(v);
    FixedBytesUnroll4(v);
    FixedBytesUnroll4(w);
    hide FixedBytes;
    assert bytes == FixedBytes(v, 8);
    ok := stream.Write(bytes);
  }

  lemma FixedBytesUnroll4(v: nat)
    ensures FixedBytes(v, 4) == [v % 256, v / 0x100 % 256, v / 0x1_0000 % 256, v / 0x100_0000 % 256]
  {
    assert v / 256 / 256 == v / 0x1_0000;
    assert v / 256 / 256 / 256 == v / 0x100_0000;
    assert FixedBytes(v, 4) == [v % 256] + FixedBytes(v / 256, 3);
    assert FixedBytes(v / 256, 3) == [v / 256 % 256] + FixedBytes(v / 256 / 256, 2);
    assert FixedBytes(v / 256 / 256, 2) == [v / 256 / 256 % 256] + FixedBytes(v / 256 / 256 / 256, 1);
    assert FixedBytes(v / 256 / 256 / 256, 1) == [v / 256 / 256 / 256 % 256];
  }

  /** `v` without its `n` low bytes. */
  function DropBytes(v: nat, n: nat): nat {
    if n == 0 then v else DropBytes(v / 256, n - 1)
  }

  lemma {:induction false} FixedBytesSplit(v: nat, n: nat, k: nat)
    ensures FixedBytes(v, n + k) == FixedBytes(v, n) + FixedBytes(DropBytes(v, n), k)
  {
    if n > 0 {
      FixedBytesSplit(v / 256, n - 1, k);
    }
  }

  lemma DropFour(v: nat)
    ensures DropBytes(v, 4) == v / 0x1_0000_0000
  {
    var v1, v2, v3 := v / 256, v / 256 / 256, v / 256 / 256 / 256;
    assert DropBytes(v3 / 256, 0) == v3 / 256;
    assert DropBytes(v3, 1) == v3 / 256;
    assert DropBytes(v2, 2) == DropBytes(v3, 1);
    assert DropBytes(v1, 3) == DropBytes(v2, 2);
    assert v2 == v / 0x1_0000 && v3 / 256 == v2 / 0x1_0000;
  }

  /** `pb_encode_tag`. */
  method EncodeTagValue(stream: OStream, wireType: nat, tag: nat) returns (ok: bool)
    requires stream.Valid() && wireType < 8
    modifies stream, stream.buf
    ensures stream.Valid()
    ensures Took(old(stream.Snap()), stream.Snap(), Emission(true, TagBytes(wireType, tag)), ok)
  {
    ok := EncodeVarint(stream, Word64(tag * 8 + wireType));
  }

  /** `pb_encode_string`. */
  method EncodeString(stream: OStream, data: seq<byte>) returns (ok: bool)
    requires stream.Valid() && |data| < U64
    modifies stream, stream.buf
    ensures stream.Valid()
    ensures Took(old(stream.Snap()), stream.Snap(), Emission(true, Delimited(data)), ok)
  {
    ghost var a := stream.Snap();
    ghost var e1, e2 := Emission(true, VarintBytes(|data|)), Emission(true, data);
    assert Then(e1, e2) == Emission(true, Delimited(data));
    ok := EncodeVarint(stream, |data|);
    ghost var b := stream.Snap();
    if !ok {
      TookFailed(a, b, e1, e2);
      return;
    }
    ok := stream.Write(data);
    TookThen(a, b, stream.Snap(), e1, e2, ok);
  }
}
