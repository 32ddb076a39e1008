/** The TCP header in host and network form (src/tcp.h:25-60, src/tcp.c:168-195), section 3.1 of RFC 9293. */
module TcpHeader {
  import opened Checksum
  import opened IpHeader

  type Seqno = Addr

  const FIN: Word := 0x001
  const SYN: Word := 0x002
  const ACK: Word := 0x010

  datatype TcpHdr = TcpHdr(
    sport: Word, dport: Word, seqno: Seqno, ackNum: Seqno,
    flags: Word, winSize: Word, csum: Word, urgPtr: Word)

  predicate Fin(h: TcpHdr) {
    h.flags % 2 == 1
  }

  predicate Syn(h: TcpHdr) {
    h.flags / SYN % 2 == 1
  }

  predicate Ack(h: TcpHdr) {
    h.flags / ACK % 2 == 1
  }

  /** flags | TCP_ACK, and flags & ~TCP_ACK. */
  function WithAck(h: TcpHdr): (r: TcpHdr)
    ensures Ack(r) && Fin(r) == Fin(h) && Syn(r) == Syn(h) && Doff(r) == Doff(h)
  {
    AckBit(h.flags);
    if Ack(h) then h else h.(flags := h.flags + ACK)
  }

  function WithoutAck(h: TcpHdr): (r: TcpHdr)
    ensures !Ack(r) && Fin(r) == Fin(h) && Syn(r) == Syn(h) && Doff(r) == Doff(h)
  {
    if Ack(h) then AckBit(h.flags - ACK); h.(flags := h.flags - ACK) else h
  }

  /** Setting the clear bit 4 changes no other bit that is looked at. */
  lemma AckBit(f: nat)
    ensures (f + ACK) % 2 == f % 2 && (f + ACK) / SYN % 2 == f / SYN % 2
    ensures (f + ACK) / ACK == f / ACK + 1
    ensures f / ACK % 2 == 0 ==> (f + ACK) / 4096 == f / 4096
  {
    var q := f / ACK;
    assert f / 4096 == q / 256;
    assert (f + ACK) / 4096 == (q + 1) / 256;
    assert q % 2 == 0 ==> (q + 1) / 256 == q / 256;
    assert (f + ACK) / SYN == f / SYN + 8;
  }

  /** Every bit above and below bit 4 stays as it is, and so does the rest of the header. */
  lemma OtherFlags(h: TcpHdr)
    ensures var r := WithAck(h);
      r == h.(flags := r.flags) && r.flags / 32 == h.flags / 32 && r.flags % 16 == h.flags % 16
    ensures var r := WithoutAck(h);
      r == h.(flags := r.flags) && r.flags / 32 == h.flags / 32 && r.flags % 16 == h.flags % 16
  {
    Around(h.flags);
    if Ack(h) {
      Around(h.flags - ACK);
    }
  }

  lemma Around(f: nat)
    ensures f / ACK % 2 == 0 ==> (f + ACK) / 32 == f / 32
    ensures (f + ACK) % 16 == f % 16 && (f + ACK) / ACK == f / ACK + 1
  {
    var q, m := f / ACK, f % ACK;
    Split(q, m);
    Split(q + 1, m);
    assert f == ACK * q + m && f + ACK == ACK * (q + 1) + m;
  }

  lemma Split(q: nat, m: nat)
    requires m < ACK
    ensures (ACK * q + m) / 32 == q / 2 && (ACK * q + m) % 16 == m && (ACK * q + m) / ACK == q
  {
    By16(ACK * q + m, q, m);
    By32(ACK * q + m, q / 2, 16 * (q % 2) + m);
  }

  lemma By16(a: nat, q: nat, r: nat)
    requires a == 16 * q + r && r < 16
    ensures a / 16 == q && a % 16 == r
  {
  }

  lemma By32(a: nat, q: nat, r: nat)
    requires a == 32 * q + r && r < 32
    ensures a / 32 == q
  {
  }

  /** The data offset in words. */
  function Doff(h: TcpHdr): nat {
    h.flags / 4096
  }

  const EINVAL: int := 22
  const EBADMSG: int := 74

  /** tcp_hdr_size. */
  function HdrSize(h: TcpHdr): (r: int)
    ensures r > 0 <==> Doff(h) >= 5
    ensures r > 0 ==> 20 <= r <= 60
  {
    if Doff(h) < 5 || Doff(h) > 15 then -EINVAL else Doff(h) * 4
  }

  /** The 20 bytes of the fixed part, with the checksum as the host stores it. */
  function TcpFields(o: Order, h: TcpHdr): (b: seq<Byte>)
    ensures |b| == 20
  {
    Net16(h.sport) + Net16(h.dport) + Net32(h.seqno) + Net32(h.ackNum)
    + Net16(h.flags) + Net16(h.winSize) + Store(o, h.csum) + Net16(h.urgPtr)
  }

  /** tcp_ntoh. */
  function TcpParse(o: Order, b: seq<Byte>): TcpHdr
    requires |b| >= 20
  {
    TcpHdr(Host16(b[0..2]), Host16(b[2..4]), Host32(b[4..8]), Host32(b[8..12]),
      Host16(b[12..14]), Host16(b[14..16]), Load(o, b[16], b[17]), Host16(b[18..20]))
  }

  /** The fields in the bytes of a header (section 3.1 of RFC 9293); the checksum is as the host stores it. */
  ghost predicate TcpInBytes(o: Order, b: seq<Byte>, h: TcpHdr)
    requires |b| >= 20
  {
    && Pair(b[0], b[1]) == h.sport && Pair(b[2], b[3]) == h.dport
    && Quad(b[4], b[5], b[6], b[7]) == h.seqno && Quad(b[8], b[9], b[10], b[11]) == h.ackNum
    && Pair(b[12], b[13]) == h.flags && Pair(b[14], b[15]) == h.winSize
    && (if o == BigEndian then Pair(b[16], b[17]) else Pair(b[17], b[16])) == h.csum
    && Pair(b[18], b[19]) == h.urgPtr
  }

  lemma TcpFieldBytes(o: Order, h: TcpHdr)
    ensures TcpInBytes(o, TcpFields(o, h), h)
  {
    hide Net32, Quad;
    QuadBytes(h.seqno);
    QuadBytes(h.ackNum);
  }

  /** What tcp_ntoh and the tests on its result read from a segment: FIN, SYN and ACK are bits 0, 1 and 4 of byte 13,
    and a header has four times as many bytes as the upper half of byte 12 says, but not less than 20. */
  lemma TcpParseBytes(o: Order, b: seq<Byte>)
    requires |b| >= 20
    ensures var h := TcpParse(o, b);
      && TcpInBytes(o, b, h)
      && (Fin(h) <==> b[13] % 2 == 1) && (Syn(h) <==> b[13] / 2 % 2 == 1) && (Ack(h) <==> b[13] / 16 % 2 == 1)
      && HdrSize(h) == if b[12] / 16 >= 5 then 4 * (b[12] / 16) else -22
  {
    FlagsByte(b[12], b[13]);
  }

  lemma FlagsByte(hi: Byte, lo: Byte)
    ensures var f := Pair(hi, lo);
      && f / 4096 == hi / 16 && f % 2 == lo % 2 && f / 2 % 2 == lo / 2 % 2 && f / 16 % 2 == lo / 16 % 2
      && f % 16 == lo % 16 && f / 32 % 8 == lo / 32
  {
    var f := Pair(hi, lo);
    LowBit(f, hi, lo);
    SecondBit(f, hi, lo);
    AckBits(f, hi, lo);
    HighBits(f, hi, lo);
    By4096(f, hi / 16, 256 * (hi % 16) + lo);
  }

  lemma LowBit(f: nat, hi: Byte, lo: Byte)
    requires f == 256 * hi + lo
    ensures f % 2 == lo % 2
  {
  }

  lemma SecondBit(f: nat, hi: Byte, lo: Byte)
    requires f == 256 * hi + lo
    ensures f / 2 % 2 == lo / 2 % 2
  {
    LowBit(f / 2 + 128 * hi, hi, lo / 2);
    assert f / 2 == 128 * hi + lo / 2;
  }

  lemma AckBits(f: nat, hi: Byte, lo: Byte)
    requires f == 256 * hi + lo
    ensures f / 16 % 2 == lo / 16 % 2 && f % 16 == lo % 16
  {
    By16(f, 16 * hi + lo / 16, lo % 16);
    LowBit(f / 16 + 240 * hi, hi, lo / 16);
  }

  lemma HighBits(f: nat, hi: Byte, lo: Byte)
    requires f == 256 * hi + lo
    ensures f / 32 % 8 == lo / 32
  {
    By32(f, 8 * hi + lo / 32, lo % 32);
    By8(8 * hi + lo / 32, hi, lo / 32);
  }

  lemma By8(a: nat, q: nat, r: nat)
    requires a == 8 * q + r && r < 8
    ensures a % 8 == r
  {
  }

  lemma By4096(a: nat, q: nat, r: nat)
    requires a == 4096 * q + r && r < 4096
    ensures a / 4096 == q
  {
  }

  lemma ParseTcpFields(o: Order, h: TcpHdr, rest: seq<Byte>)
    ensures TcpParse(o, TcpFields(o, h) + rest) == h
  {
    var b := TcpFields(o, h) + rest;
    Net16Host(h.sport);
    Net16Host(h.dport);
    Net32Host(h.seqno);
    Net32Host(h.ackNum);
    Net16Host(h.flags);
    Net16Host(h.winSize);
    Net16Host(h.urgPtr);
    assert b[0..2] == Net16(h.sport) && b[2..4] == Net16(h.dport);
    assert b[4..8] == Net32(h.seqno) && b[8..12] == Net32(h.ackNum);
    assert b[12..14] == Net16(h.flags) && b[14..16] == Net16(h.winSize);
    assert b[16..18] == Store(o, h.csum) && b[18..20] == Net16(h.urgPtr);
  }

  lemma TcpFieldsPut(o: Order, h: TcpHdr, w: Word)
    ensures TcpFields(o, h.(csum := w)) == Put(o, TcpFields(o, h.(csum := 0)), 16, w)
  {
    Net16Host(h.sport);
    Net16Host(h.dport);
    Net32Host(h.seqno);
    Net32Host(h.ackNum);
    Net16Host(h.flags);
    Net16Host(h.winSize);
  }

  function SegmentSum(o: Order, src: Addr, dst: Addr, h: TcpHdr, rest: seq<Byte>): Word {
    Sum16(o, PseudoHeader(Net32(src), Net32(dst), 20 + |rest|) + TcpFields(o, h.(csum := 0)) + rest)
  }

  /** What tcp_hton leaves in a segment whose options and data are rest. */
  function Segment(o: Order, src: Addr, dst: Addr, h: TcpHdr, rest: seq<Byte>): (b: seq<Byte>)
    ensures |b| == 20 + |rest|
  {
    TcpFields(o, h.(csum := SegmentSum(o, src, dst, h, rest))) + rest
  }

  /** The receiver reads the same fields, and its checksum over pseudo header and segment is 0. */
  lemma SegmentVerifies(o: Order, src: Addr, dst: Addr, h: TcpHdr, rest: seq<Byte>)
    ensures var b := Segment(o, src, dst, h, rest);
      && TcpParse(o, b) == h.(csum := SegmentSum(o, src, dst, h, rest))
      && Sum16(o, PseudoHeader(Net32(src), Net32(dst), |b|) + b) == 0
  {
    hide TcpFields, Sum16, Put, TcpParse;
    var c := SegmentSum(o, src, dst, h, rest);
    ParseTcpFields(o, h.(csum := c), rest);
    var pseudo, fields := PseudoHeader(Net32(src), Net32(dst), 20 + |rest|), TcpFields(o, h.(csum := 0));
    TcpFieldsPut(o, h, 0);
    TcpFieldsPut(o, h, c);
    assert |pseudo| == 12;
    Behind(o, pseudo, fields, rest, 0);
    Behind(o, pseudo, fields, rest, c);
    assert pseudo + (TcpFields(o, h.(csum := c)) + rest) == pseudo + TcpFields(o, h.(csum := c)) + rest;
    ChecksVerifies(o, pseudo + fields + rest, 28, c);
  }

  lemma Behind(o: Order, pseudo: seq<Byte>, fields: seq<Byte>, rest: seq<Byte>, w: Word)
    requires |pseudo| == 12 && |fields| == 20
    ensures Put(o, pseudo + fields + rest, 28, w) == pseudo + Put(o, fields, 16, w) + rest
  {
  }

  /** What the receiver adds up: the words of both addresses, 6, the length, and the bytes of the segment. */
  lemma SegmentOnWire(o: Order, src: Addr, dst: Addr, b: seq<Byte>)
    requires |b| < 65536 && Sum16(o, PseudoHeader(Net32(src), Net32(dst), |b|) + b) == 0
    ensures (src / 65536 + src % 65536 + dst / 65536 + dst % 65536 + 6 + |b| + ByPlace(b, 256, 1)) % 65535 == 0
  {
    hide PseudoHeader, ByPlace, Sum16, Net32;
    ChecksOnWire(o, PseudoHeader(Net32(src), Net32(dst), |b|) + b);
    PseudoWords(BigEndian, Net32(src), Net32(dst), |b|, b);
    AddressWords(src);
    AddressWords(dst);
  }

  lemma AddressWords(a: Addr)
    ensures var b := Net32(a);
      |b| == 4 && Pair(b[0], b[1]) == a / 65536 && Pair(b[2], b[3]) == a % 65536
  {
  }

  /** tcp_hton; the segment is the first bsize bytes of the buffer. */
  method TcpHton(o: Order, src: Addr, dst: Addr, host: TcpHdr, net: array<Byte>, bsize: nat)
    requires 20 <= bsize <= net.Length
    modifies net
    ensures net[..bsize] == Segment(o, src, dst, host, old(net[20..bsize]))
    ensures net[bsize..] == old(net[bsize..])
  {
    hide TcpFields, Sum16, Put, Store;
    ghost var rest, tail := net[20..bsize], net[bsize..];
    Blit(net, 0, TcpFields(o, host.(csum := 0)));
    ghost var zeroed := TcpFields(o, host.(csum := 0)) + rest + tail;
    assert net[..] == zeroed;
    assert net[..bsize] == TcpFields(o, host.(csum := 0)) + rest;
    Net32Host(src);
    Net32Host(dst);
    var csum := TcpChecksum(o, Net32(src), Net32(dst), net[..bsize]);
    SumOf(o, src, dst, host, rest);
    PutIsStore(o, zeroed, 16, csum);
    Blit(net, 16, Store(o, csum));
    PutInFront(o, TcpFields(o, host.(csum := 0)), rest, 16, csum);
    PutInFront(o, TcpFields(o, host.(csum := 0)) + rest, tail, 16, csum);
    TcpFieldsPut(o, host, csum);
    assert net[..] == TcpFields(o, host.(csum := csum)) + rest + tail;
  }

  lemma SumOf(o: Order, src: Addr, dst: Addr, h: TcpHdr, rest: seq<Byte>)
    ensures SegmentSum(o, src, dst, h, rest)
      == Sum16(o, PseudoHeader(Net32(src), Net32(dst), 20 + |rest|) + (TcpFields(o, h.(csum := 0)) + rest))
  {
    var pseudo := PseudoHeader(Net32(src), Net32(dst), 20 + |rest|);
    assert pseudo + (TcpFields(o, h.(csum := 0)) + rest) == pseudo + TcpFields(o, h.(csum := 0)) + rest;
  }
}
