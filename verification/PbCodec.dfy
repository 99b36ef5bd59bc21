/**
  The encoder and the decoder of nanopb one after the other: what is written to a
  buffer is read from it again.
*/
module PbCodec {
  import opened Bits
  import opened PbTypes
  import opened PbEncodeSpec
  import opened PbRoundTrip
  import opened PbOutput
  import PbEncode
  import opened PbInput
  import PbDecode

  /** A faithful message passes through a buffer unchanged, whatever the receiving struct held
      before, if and only if it can be encoded and has room. */
  method PassThrough(env: StaticSchema, m: nat, cells: seq<Cell>, buffer: array<byte>, dest: PbDecode.Message)
      returns (encoded: bool, decoded: bool)
    requires m < |env| && Faithful(env, m, cells) && |dest.cells| == NumSlots(env[m])
    requires buffer.Length < U64 && |EncodeMsg(env, m, cells).bytes| < U64
    modifies buffer, dest
    ensures encoded <==> EncodeMsg(env, m, cells).ok && |EncodeMsg(env, m, cells).bytes| <= buffer.Length
    ensures encoded ==> decoded && dest.cells == cells
    ensures !encoded ==> dest.cells == old(dest.cells)
  {
    hide EncodeMsg, Faithful;
    var ostream := new OStream.FromBuffer(buffer, buffer.Length);
    encoded := PbEncode.Encode(ostream, env, m, cells);
    decoded := false;
    if encoded {
      MessageRoundTrip(env, m, cells);
      var istream := new IStream.FromBuffer(buffer[..ostream.bytesWritten]);
      decoded := PbDecode.Decode(istream, env, m, dest);
    }
  }
}
