/** The bytes of the protocol, in literals: what a packet looks like on the wire and which bytes the decoder takes. */
module WireFormat {
  import opened Common
  import opened Wire
  import opened Framing

  /** Four bytes as an unsigned little-endian number. */
  function Unsigned(b: seq<byte>): int
    requires |b| == 4
  {
    b[0] as int + 256 * b[1] as int + 65536 * b[2] as int + 16777216 * b[3] as int
  }

  /** Four bytes as a signed little-endian number. */
  function Signed(b: seq<byte>): int
    requires |b| == 4
  {
    if Unsigned(b) < 2147483648 then Unsigned(b) else Unsigned(b) - 4294967296
  }

  /** Every packet: the letters RLDN, the type, the version 1, the payload's length, the payload. */
  lemma Layout(p: Packet)
    requires |p.payload| < 0x8000_0000
    ensures |Image(p)| == 10 + |p.payload|
    ensures Image(p)[..4] == [0x52, 0x4C, 0x44, 0x4E]
    ensures Image(p)[4] == p.kind && Image(p)[5] == 1
    ensures Unsigned(Image(p)[6..10]) == |p.payload|
    ensures Image(p)[10..] == p.payload
  {
    var image, size := Image(p), |p.payload|;
    assert LeBytes(MAGIC) == [0x52, 0x4C, 0x44, 0x4E];
    assert image[..4] == LeBytes(MAGIC);
    assert image[6..10] == LeBytes(size);
    LeRoundTrip(size);
  }

  /** The four bytes of the magic number are those letters and no others. */
  lemma MagicExact(b: seq<byte>)
    requires |b| == 4
    ensures LeValue(b) == MAGIC <==> b == [0x52, 0x4C, 0x44, 0x4E]
  {
    LeInverse(b);
    assert LeBytes(MAGIC) == [0x52, 0x4C, 0x44, 0x4E];
  }

  /** Ten bytes that the decoder refuses: other letters, another version, or a size of 16374 or more. */
  predicate Bad(b: seq<byte>)
    requires |b| == 10
  {
    b[..4] != [0x52, 0x4C, 0x44, 0x4E] || b[5] != 1 || Signed(b[6..10]) >= 16374
  }

  lemma VerdictExact(b: seq<byte>)
    requires |b| == 10
    ensures Judge(ParseHeader(b)).Refused? <==> Bad(b)
    ensures ParseHeader(b).dataSize == Signed(b[6..10])
  {
    MagicExact(b[..4]);
    assert b[6..10] == b[6..];
  }

  /** At a packet boundary, the pass rejects if and only if ten bytes are there and they are bad. */
  lemma RefusedExact(bytes: seq<byte>, lend: bool)
    requires |bytes| >= 10
    ensures Sweep(Ready, bytes, lend).log == [] && Sweep(Ready, bytes, lend).ending.Rejected? <== Bad(bytes[..10])
    ensures |bytes| == 10 ==> (Sweep(Ready, bytes, lend).ending.Rejected? <==> Bad(bytes))
  {
    var header, tail := bytes[..10], bytes[10..];
    assert bytes == header + tail && [] + header == header;
    VerdictExact(header);
    SweepHeaderDone([], header, tail, lend);
    if |bytes| == 10 {
      assert bytes[..10] == bytes && tail == [];
    }
  }

  /**
   What the decoder makes of good bytes: with a buffer to lend, ten good bytes
   and as many more as they announce are dispatched as the packet of that type
   and those bytes, and the next byte starts anew.
   */
  lemma GoodPacket(bytes: seq<byte>, tail: seq<byte>)
    requires |bytes| >= 10 && !Bad(bytes[..10]) && Signed(bytes[6..10]) == |bytes| - 10
    ensures Sweep(Ready, bytes + tail, true) == Sweep(Ready, tail, true).After([Packet(bytes[4], bytes[10..])])
  {
    var p, header := Packet(bytes[4], bytes[10..]), bytes[..10];
    VerdictExact(header);
    assert header[6..10] == bytes[6..10];
    HeaderInverse(header);
    assert ParseHeader(header) == PacketHeader(p.kind, |p.payload|);
    assert bytes == header + bytes[10..] && Image(p) == bytes;
    SweepImage(p, tail);
  }

  /** The same without a buffer: an empty packet is dispatched, any other skipped. */
  lemma GoodPacketUnstored(bytes: seq<byte>, tail: seq<byte>)
    requires |bytes| >= 10 && !Bad(bytes[..10]) && Signed(bytes[6..10]) == |bytes| - 10
    ensures Sweep(Ready, bytes + tail, false) ==
            if |bytes| == 10 then Sweep(Ready, tail, false).After([Packet(bytes[4], [])]) else Sweep(Ready, tail, false)
  {
    var header, body := bytes[..10], bytes[10..];
    VerdictExact(header);
    assert header[6..10] == bytes[6..10];
    assert bytes + tail == header + (body + tail) && [] + header == header;
    SweepHeaderDone([], header, body + tail, false);
    assert (body + tail)[|body|..] == tail;
    if |bytes| == 10 {
      assert body + tail == tail;
    }
  }
}
