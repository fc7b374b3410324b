/** Frames (section 4.1 of RFC 7540): the header and the checks made on it. */
module Frames {
  import opened Words

  const HEADER_SIZE := 9
  const DATA: Byte := 0
  const HEADERS: Byte := 1
  const CONTINUATION: Byte := 9
  const MAX_FRAME_SIZE := 16384

  const END_STREAM: Byte := 0x1
  const END_HEADERS: Byte := 0x4

  /** The 24-bit length in network order. */
  function PayloadSize(bytes: seq<Byte>): (n: nat)
    requires |bytes| >= HEADER_SIZE
    ensures n < 0x1000000
  {
    (bytes[0] as int) * 65536 + (bytes[1] as int) * 256 + bytes[2]
  }

  function FrameSize(bytes: seq<Byte>): nat
    requires |bytes| >= HEADER_SIZE
  {
    HEADER_SIZE + PayloadSize(bytes)
  }

  function FrameType(bytes: seq<Byte>): Byte
    requires |bytes| >= HEADER_SIZE
  {
    bytes[3]
  }

  function Flags(bytes: seq<Byte>): Byte
    requires |bytes| >= HEADER_SIZE
  {
    bytes[4]
  }

  /** The checks that need no more than the header. */
  predicate Checked(bytes: seq<Byte>, maxFrameSize: nat)
    requires |bytes| >= HEADER_SIZE
  {
    FrameType(bytes) <= CONTINUATION && PayloadSize(bytes) <= maxFrameSize
  }

  /** A header only depends on the first nine octets. */
  lemma HeaderOfPrefix(a: seq<Byte>, b: seq<Byte>)
    requires |a| >= HEADER_SIZE
    ensures |a + b| >= HEADER_SIZE && FrameSize(a + b) == FrameSize(a) && FrameType(a + b) == FrameType(a)
    ensures forall max :: Checked(a + b, max) == Checked(a, max)
  {
  }

  function StreamIdOf(bytes: seq<Byte>): nat
    requires |bytes| >= HEADER_SIZE
  {
    (bytes[5] as int) * 0x1000000 + (bytes[6] as int) * 65536 + (bytes[7] as int) * 256 + bytes[8]
  }

  /** Three octets in network order. */
  function ThreeOctets(n: nat): seq<Byte>
    requires n < 0x1000000
  {
    [n / 65536, n / 256 % 256, n % 256]
  }

  /** A frame as it is built: the header in network order, with 24 bits of the length, and the payload. */
  function Build(kind: Byte, flags: Byte, streamId: nat, payload: seq<Byte>): seq<Byte>
    requires streamId < TWO_32
  {
    ThreeOctets(|payload| % 0x1000000) + [kind, flags, streamId / 0x1000000] + ThreeOctets(streamId % 0x1000000) +
      payload
  }

  lemma OctetsRead(n: nat)
    requires n < 0x1000000
    ensures (n / 65536) * 65536 + (n / 256 % 256) * 256 + n % 256 == n
  {
    DivDiv(n, 256, 256);
  }

  /** What is built is read back, whatever follows. */
  lemma BuildRoundTrip(kind: Byte, flags: Byte, streamId: nat, payload: seq<Byte>, rest: seq<Byte>)
    requires |payload| < 0x1000000 && streamId < TWO_32
    ensures var bytes := Build(kind, flags, streamId, payload) + rest;
      && |bytes| >= HEADER_SIZE && PayloadSize(bytes) == |payload|
      && FrameType(bytes) == kind && Flags(bytes) == flags && StreamIdOf(bytes) == streamId
      && bytes[HEADER_SIZE..FrameSize(bytes)] == payload && bytes[FrameSize(bytes)..] == rest
  {
    var n := |payload|;
    assert n % 0x1000000 == n;
    var low := streamId % 0x1000000;
    var frame := Build(kind, flags, streamId, payload);
    assert frame[..3] == ThreeOctets(n) && frame[6..9] == ThreeOctets(low);
    assert frame[3] == kind && frame[4] == flags && frame[5] == streamId / 0x1000000;
    assert frame[HEADER_SIZE..] == payload;
    var bytes := frame + rest;
    assert bytes[0] == n / 65536 && bytes[1] == n / 256 % 256 && bytes[2] == n % 256;
    assert bytes[6] == low / 65536 && bytes[7] == low / 256 % 256 && bytes[8] == low % 256;
    OctetsRead(n);
    OctetsRead(low);
  }
}
