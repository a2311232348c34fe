/**
 The Ethernet header (section 3.2 of IEEE 802.3): six bytes of destination,
 six of source, two of type.  The driver writes it as four words that start
 two bytes before the frame; the fan-out reads the destination back and the
 receiver reads the type back.
 */
module Frame {
  import opened Words

  /** A physical address as the driver keeps it: 16 bits in `msw`, 32 in `lsw`. */
  datatype Mac = Mac(msw: bv32, lsw: bv32)

  const ZERO_MAC := Mac(0, 0)

  const HEADER_SIZE: nat := 14

  const ETHERNET_IP: bv32 := 0x0800
  const ETHERNET_ARP: bv32 := 0x0806
  const ETHERNET_RARP: bv32 := 0x8035
  const ETHERNET_IPV6: bv32 := 0x86DD

  /** What a header has room for: the low 16 bits of `msw`. */
  function Truncate(m: Mac): Mac {
    Mac(Low16(m.msw), m.lsw)
  }

  /** The four words the driver stores. */
  function HeaderWords(dst: Mac, src: Mac, etherType: bv32): (w: seq<bv32>)
    ensures |w| == 4
  {
    [dst.msw, dst.lsw, UpperPacked(src.msw, src.lsw), LowerPacked(src.lsw, etherType)]
  }

  /** Those words as sixteen bytes in wire order. */
  function HeaderBytes(dst: Mac, src: Mac, etherType: bv32): (b: seq<bv8>)
    ensures |b| == 16
  {
    var w := HeaderWords(dst, src, etherType);
    BigEndian(w[0]) + BigEndian(w[1]) + BigEndian(w[2]) + BigEndian(w[3])
  }

  /** The fourteen bytes of the frame's header. */
  function Header(dst: Mac, src: Mac, etherType: bv32): (b: seq<bv8>)
    ensures |b| == HEADER_SIZE
  {
    HeaderBytes(dst, src, etherType)[2..]
  }

  /** The destination, as the fan-out reads it. */
  function Destination(frame: seq<bv8>): Mac
    requires |frame| >= HEADER_SIZE
  {
    Mac(Pair(frame[0], frame[1]), Quad(frame[2], frame[3], frame[4], frame[5]))
  }

  /** The source address in bytes 6 to 11. */
  function Source(frame: seq<bv8>): Mac
    requires |frame| >= HEADER_SIZE
  {
    Mac(Pair(frame[6], frame[7]), Quad(frame[8], frame[9], frame[10], frame[11]))
  }

  /** The type field, as the receiver reads it. */
  function EtherType(frame: seq<bv8>): bv32
    requires |frame| >= HEADER_SIZE
  {
    Pair(frame[12], frame[13])
  }

  /** Every reader gets back what was written, and stripping the header leaves the payload. */
  predicate RoundTrips(frame: seq<bv8>, dst: Mac, src: Mac, etherType: bv32, payload: seq<bv8>)
    requires |frame| >= HEADER_SIZE
  {
    && Destination(frame) == Truncate(dst)
    && Source(frame) == Truncate(src)
    && EtherType(frame) == etherType
    && frame[HEADER_SIZE..] == payload
  }

  /** Four words' bytes, less the first two, and where each of them ends up. */
  lemma Layout(b0: seq<bv8>, b1: seq<bv8>, b2: seq<bv8>, b3: seq<bv8>, payload: seq<bv8>)
    requires |b0| == |b1| == |b2| == |b3| == 4
    ensures var f := (b0 + b1 + b2 + b3)[2..] + payload;
            && f[..2] == b0[2..]
            && f[2..6] == b1
            && f[6..10] == b2
            && f[10..14] == b3
            && f[14..] == payload
    ensures (b0 + b1 + b2 + b3)[2..] == b0[2..] + (b1 + b2 + b3)
  {
    var f := (b0 + b1 + b2 + b3)[2..] + payload;
    var bytes := b0 + (b1 + (b2 + (b3 + payload)));
    assert b0 + b1 + b2 + b3 + payload == bytes;
    assert f == bytes[2..];
    assert bytes[4..8] == b1 && bytes[8..12] == b2 && bytes[12..16] == b3 && bytes[16..] == payload;
    assert f[2..6] == bytes[4..8] && f[6..10] == bytes[8..12] && f[10..14] == bytes[12..16] && f[14..] == bytes[16..];
  }

  lemma ReadersOfLayout(b0: seq<bv8>, b1: seq<bv8>, b2: seq<bv8>, b3: seq<bv8>, payload: seq<bv8>)
    requires |b0| == |b1| == |b2| == |b3| == 4
    ensures var f := (b0 + b1 + b2 + b3)[2..] + payload;
            && Destination(f) == Mac(Pair(b0[2], b0[3]), Quad(b1[0], b1[1], b1[2], b1[3]))
            && Source(f) == Mac(Pair(b2[0], b2[1]), Quad(b2[2], b2[3], b3[0], b3[1]))
            && EtherType(f) == Pair(b3[2], b3[3])
            && f[HEADER_SIZE..] == payload
  {
    Layout(b0, b1, b2, b3, payload);
    var f := (b0 + b1 + b2 + b3)[2..] + payload;
    assert f[0] == f[..2][0] && f[1] == f[..2][1];
    assert forall k | 0 <= k < 4 :: f[2 + k] == f[2..6][k] && f[6 + k] == f[6..10][k] && f[10 + k] == f[10..14][k];
    assert f[2] == b1[0] && f[6] == b2[0] && f[10] == b3[0];
  }

  lemma RoundTripOfBytes(b0: seq<bv8>, b1: seq<bv8>, b2: seq<bv8>, b3: seq<bv8>,
                         dst: Mac, src: Mac, t: bv32, payload: seq<bv8>)
    requires |b0| == |b1| == |b2| == |b3| == 4
    requires Pair(b0[2], b0[3]) == Truncate(dst).msw && Quad(b1[0], b1[1], b1[2], b1[3]) == dst.lsw
    requires Pair(b2[0], b2[1]) == Truncate(src).msw && Quad(b2[2], b2[3], b3[0], b3[1]) == src.lsw
    requires Pair(b3[2], b3[3]) == t
    ensures RoundTrips((b0 + b1 + b2 + b3)[2..] + payload, dst, src, t, payload)
  {
    ReadersOfLayout(b0, b1, b2, b3, payload);
  }

  /** Both readers undo the writer, for every destination, source, type and payload. */
  lemma HeaderRoundTrip(dst: Mac, src: Mac, etherType: bv32, payload: seq<bv8>)
    requires Low16(etherType) == etherType
    ensures RoundTrips(Header(dst, src, etherType) + payload, dst, src, etherType, payload)
  {
    hide BigEndian, Pair, Quad, UpperPacked, LowerPacked, Low16, RoundTrips;
    PairOfWord(dst.msw);
    QuadOfWord(dst.lsw);
    UpperHalf(src.msw, src.lsw);
    MiddleWord(src.msw, src.lsw, etherType);
    LowerHalf(src.lsw, etherType);
    RoundTripOfBytes(BigEndian(dst.msw), BigEndian(dst.lsw), BigEndian(UpperPacked(src.msw, src.lsw)),
                     BigEndian(LowerPacked(src.lsw, etherType)), dst, src, etherType, payload);
  }

  /** Byte by byte, a header is the low 48 bits of the destination, those of the source, and the type, each with its most
      significant byte first. */
  lemma HeaderLayout(dst: Mac, src: Mac, etherType: bv32)
    requires Low16(etherType) == etherType
    ensures Header(dst, src, etherType)
            == BigEndian(dst.msw)[2..] + BigEndian(dst.lsw) + BigEndian(src.msw)[2..] + BigEndian(src.lsw)
               + BigEndian(etherType)[2..]
  {
    hide BigEndian, UpperPacked, LowerPacked, Low16;
    var b0, b1 := BigEndian(dst.msw), BigEndian(dst.lsw);
    var b2, b3 := BigEndian(UpperPacked(src.msw, src.lsw)), BigEndian(LowerPacked(src.lsw, etherType));
    UpperBytes(src.msw, src.lsw);
    LowerBytes(src.lsw, etherType);
    HalvesMeet(b0, b1, b2, b3, BigEndian(src.msw), BigEndian(src.lsw), BigEndian(etherType));
  }

  lemma HalvesMeet(b0: seq<bv8>, b1: seq<bv8>, b2: seq<bv8>, b3: seq<bv8>, m: seq<bv8>, l: seq<bv8>, t: seq<bv8>)
    requires |b0| == |b1| == |b2| == |b3| == |m| == |l| == |t| == 4
    requires b2[0] == m[2] && b2[1] == m[3] && b2[2] == l[0] && b2[3] == l[1]
    requires b3[0] == l[2] && b3[1] == l[3] && b3[2] == t[2] && b3[3] == t[3]
    ensures (b0 + b1 + b2 + b3)[2..] == b0[2..] + b1 + m[2..] + l + t[2..]
  {
    Layout(b0, b1, b2, b3, []);
    assert b2 + b3 == m[2..] + l + t[2..];
    assert b1 + b2 + b3 == b1 + (b2 + b3);
  }

  lemma TruncateMeans(m: Mac)
    ensures Truncate(m) == Mac(m.msw & 0xFFFF, m.lsw)
  {
  }

  /** The high half of the destination's `msw` is written before the frame and nowhere else. */
  lemma HighHalfStaysOutside(dst: Mac, src: Mac, etherType: bv32)
    ensures var b := HeaderBytes(dst, src, etherType); Pair(b[0], b[1]) == dst.msw >> 16
    ensures Header(dst, src, etherType) == Header(Truncate(dst), src, etherType)
  {
    var w := HeaderWords(dst, src, etherType);
    PairOfWord(dst.msw);
    SameLowHalf(dst.msw);
    OnlyTheTail(BigEndian(w[0]), BigEndian(Low16(w[0])), BigEndian(w[1]), BigEndian(w[2]), BigEndian(w[3]));
  }

  lemma OnlyTheTail(b: seq<bv8>, c: seq<bv8>, b1: seq<bv8>, b2: seq<bv8>, b3: seq<bv8>)
    requires |b| == |c| == |b1| == |b2| == |b3| == 4 && b[2..] == c[2..]
    ensures (b + b1 + b2 + b3)[2..] == (c + b1 + b2 + b3)[2..]
    ensures (b + b1 + b2 + b3)[0] == b[0] && (b + b1 + b2 + b3)[1] == b[1]
  {
    Layout(b, b1, b2, b3, []);
    Layout(c, b1, b2, b3, []);
  }

  lemma SameLowHalf(v: bv32)
    ensures BigEndian(v)[2..] == BigEndian(Low16(v))[2..]
  {
    SameLowBytes(v);
  }

  lemma SameLowBytes(v: bv32)
    ensures BigEndian(v)[2] == BigEndian(Low16(v))[2] && BigEndian(v)[3] == BigEndian(Low16(v))[3]
  {
  }

  /** Sixteen bytes patched in before `front`: all but two of them, and then the `n` bytes that follow, are the frame. */
  lemma PatchedFront(s: seq<bv8>, front: nat, bytes: seq<bv8>, n: nat)
    requires |bytes| == 16 && 16 <= front && front + n <= |s|
    ensures var t := Patch(s, front - 16, bytes);
            && t == s[..front - 16] + bytes + s[front..]
            && t[front - HEADER_SIZE..front + n] == bytes[2..] + s[front..front + n]
  {
  }

  /** Where the receiver sends a frame. */
  datatype Route = ToIp | ToArp | ToRarp | Discard

  function RouteOf(etherType: bv32): Route {
    if etherType == ETHERNET_IP || etherType == ETHERNET_IPV6 then ToIp
    else if etherType == ETHERNET_ARP then ToArp
    else if etherType == ETHERNET_RARP then ToRarp
    else Discard
  }
}
