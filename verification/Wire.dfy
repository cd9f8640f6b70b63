/** The 10-byte packet header, its little-endian image, and the packet encoders. */
module Wire {
  import opened Common
  import opened BufferPools

  const HEADER_SIZE := 10
  const MAGIC := 0x4E44_4C52  // "RLDN" read little-endian
  const PROTOCOL_VERSION: byte := 1
  const TWO_32 := 0x1_0000_0000

  /** `dataSize` is signed on the wire. */
  datatype LdnHeader = LdnHeader(magic: int, kind: byte, version: byte, dataSize: int) {
    predicate Fits() {
      0 <= magic < TWO_32 && -0x8000_0000 <= dataSize < 0x8000_0000
    }
  }

  datatype Packet = Packet(kind: byte, payload: seq<byte>) {
    /** The sizes the receiver accepts; note the strict bound. */
    predicate InRange() {
      |payload| < MAX_PACKET_SIZE - HEADER_SIZE
    }
  }

  // ---------------------------------------------------------------- integers in memory

  function LeBytes(n: int): (b: seq<byte>)
    requires 0 <= n < TWO_32
    ensures |b| == 4
  {
    [(n % 256) as byte, (n / 256 % 256) as byte, (n / 65536 % 256) as byte, (n / 16777216) as byte]
  }

  function LeValue(b: seq<byte>): (n: int)
    requires |b| == 4
    ensures 0 <= n < TWO_32
  {
    b[0] as int + 256 * b[1] as int + 65536 * b[2] as int + 16777216 * b[3] as int
  }

  lemma LeRoundTrip(n: int)
    requires 0 <= n < TWO_32
    ensures LeValue(LeBytes(n)) == n
  {
    ByteSplit(n, 256);
    ByteSplit(n / 256, 256);
    ByteSplit(n / 65536, 256);
    assert n / 256 / 256 == n / 65536 && n / 65536 / 256 == n / 16777216;
  }

  lemma ByteSplit(n: int, k: int)
    requires k > 0
    ensures n == n % k + k * (n / k)
  {
  }

  lemma LeInverse(b: seq<byte>)
    requires |b| == 4
    ensures LeBytes(LeValue(b)) == b
  {
    var m3 := b[3] as int;
    var m2 := b[2] as int + 256 * m3;
    var m1 := b[1] as int + 256 * m2;
    ByteJoin(b[0] as int, m1);
    ByteJoin(b[1] as int, m2);
    ByteJoin(b[2] as int, m3);
    assert LeValue(b) == b[0] as int + 256 * m1;
    assert LeValue(b) / 65536 == m2 && LeValue(b) / 16777216 == m3;
  }

  lemma ByteJoin(b: int, m: int)
    requires 0 <= b < 256
    ensures (b + 256 * m) % 256 == b && (b + 256 * m) / 256 == m
  {
  }

  function ToUnsigned(n: int): int {
    if n < 0 then n + TWO_32 else n
  }

  function ToSigned(n: int): int {
    if n >= 0x8000_0000 then n - TWO_32 else n
  }

  // ---------------------------------------------------------------- headers

  function HeaderBytes(h: LdnHeader): (b: seq<byte>)
    requires h.Fits()
    ensures |b| == HEADER_SIZE
  {
    LeBytes(h.magic) + [h.kind, h.version] + LeBytes(ToUnsigned(h.dataSize))
  }

  function ParseHeader(b: seq<byte>): (h: LdnHeader)
    requires |b| == HEADER_SIZE
    ensures h.Fits()
  {
    LdnHeader(LeValue(b[..4]), b[4], b[5], ToSigned(LeValue(b[6..])))
  }

  /** The header image and the header determine each other. */
  lemma HeaderRoundTrip(h: LdnHeader)
    requires h.Fits()
    ensures ParseHeader(HeaderBytes(h)) == h
  {
    var b := HeaderBytes(h);
    LeRoundTrip(h.magic);
    LeRoundTrip(ToUnsigned(h.dataSize));
    assert b[..4] == LeBytes(h.magic) && b[6..] == LeBytes(ToUnsigned(h.dataSize));
  }

  lemma HeaderInverse(b: seq<byte>)
    requires |b| == HEADER_SIZE
    ensures HeaderBytes(ParseHeader(b)) == b
  {
    LeInverse(b[..4]);
    LeInverse(b[6..]);
    assert b == b[..4] + [b[4], b[5]] + b[6..];
  }

  // ---------------------------------------------------------------- encoding

  function PacketHeader(kind: byte, size: int): LdnHeader {
    LdnHeader(MAGIC, kind, PROTOCOL_VERSION, size)
  }

  /** The bytes of one packet on the stream. */
  function Image(p: Packet): (b: seq<byte>)
    requires |p.payload| < 0x8000_0000
    ensures |b| == HEADER_SIZE + |p.payload|
  {
    HeaderBytes(PacketHeader(p.kind, |p.payload|)) + p.payload
  }

  predicate AllInRange(ps: seq<Packet>) {
    forall i | 0 <= i < |ps| :: ps[i].InRange()
  }

  /** The bytes of a list of packets on the stream. */
  function Stream(ps: seq<Packet>): seq<byte>
    requires AllInRange(ps)
  {
    if ps == [] then [] else Image(ps[0]) + Stream(ps[1..])
  }

  /** Raw encoder: header, then the payload, into a caller's buffer; bytes past the packet are left alone. */
  method Encode(kind: byte, data: seq<byte>, output: array<byte>) returns (size: nat)
    requires HEADER_SIZE + |data| <= output.Length && |data| < 0x8000_0000
    modifies output
    ensures size == HEADER_SIZE + |data|
    ensures output[..size] == Image(Packet(kind, data))
    ensures output[size..] == old(output[size..])
  {
    EncodeHeader(kind, |data|, output);
    Blit(data, output, HEADER_SIZE);
    size := HEADER_SIZE + |data|;
  }

  /** memcpy into the middle of a buffer. */
  method Blit(data: seq<byte>, output: array<byte>, at: nat)
    requires at + |data| <= output.Length
    modifies output
    ensures output[..at + |data|] == old(output[..at]) + data
    ensures forall k | at + |data| <= k < output.Length :: output[k] == old(output[k])
  {
    forall k | 0 <= k < |data| { output[at + k] := data[k]; }
  }

  method EncodeHeader(kind: byte, dataSize: int, output: array<byte>)
    requires HEADER_SIZE <= output.Length && -0x8000_0000 <= dataSize < 0x8000_0000
    modifies output
    ensures output[..HEADER_SIZE] == HeaderBytes(PacketHeader(kind, dataSize))
    ensures forall k | HEADER_SIZE <= k < output.Length :: output[k] == old(output[k])
  {
    Blit(HeaderBytes(PacketHeader(kind, dataSize)), output, 0);
  }

  /** Templated encoder: a fixed structure followed by extra bytes makes the same packet as their concatenation. */
  method EncodeWithExtra(kind: byte, structure: seq<byte>, extra: seq<byte>, output: array<byte>) returns (size: nat)
    requires HEADER_SIZE + |structure| + |extra| <= output.Length && |structure| + |extra| < 0x8000_0000
    modifies output
    ensures size == HEADER_SIZE + |structure| + |extra|
    ensures output[..size] == Image(Packet(kind, structure + extra))
    ensures output[size..] == old(output[size..])
  {
    var body := HEADER_SIZE + |structure|;
    EncodeHeader(kind, |structure| + |extra|, output);
    ghost var header := output[..HEADER_SIZE];
    Blit(structure, output, HEADER_SIZE);
    assert output[..body] == header + structure;
    Blit(extra, output, body);
    size := body + |extra|;
    assert output[..size] == (header + structure) + extra;
    Assoc(header, structure, extra);
  }
}
