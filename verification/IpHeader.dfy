/** The IP header in host and network form (src/xstack_ip.h:30-43, src/ip.c:67-100), section 3.1 of RFC 791. */
module IpHeader {
  import opened Checksum

  type Addr = x: nat | x < 0x1_0000_0000

  const FLAG_MF: Word := 0x2000

  datatype IpHdr = IpHdr(
    vhl: Byte, tos: Byte, len: Word, id: Word, foff: Word,
    ttl: Byte, proto: Byte, csum: Word, src: Addr, dst: Addr)

  /** ip_hdr_hlen: the header length in bytes. */
  function Hlen(h: IpHdr): (r: nat)
    ensures r <= 60 && r % 4 == 0
  {
    h.vhl % 16 * 4
  }

  /** The offset in bytes, and whether more fragments follow. */
  function Offset(h: IpHdr): nat {
    h.foff % 0x2000 * 8
  }

  predicate MoreFragments(h: IpHdr) {
    h.foff / FLAG_MF % 2 == 1
  }

  function Net16(w: Word): seq<Byte> {
    Store(BigEndian, w)
  }

  function Net32(a: Addr): (b: seq<Byte>)
    ensures |b| == 4
  {
    Net16(a / 65536) + Net16(a % 65536)
  }

  function Host16(b: seq<Byte>): Word
    requires |b| == 2
  {
    Load(BigEndian, b[0], b[1])
  }

  function Host32(b: seq<Byte>): Addr
    requires |b| == 4
  {
    Host16(b[..2]) * 65536 + Host16(b[2..])
  }

  /** The 20 bytes of the fixed part, with the checksum as the host stores it. */
  function Fields(o: Order, h: IpHdr): (b: seq<Byte>)
    ensures |b| == 20
  {
    [h.vhl, h.tos] + Net16(h.len) + Net16(h.id) + Net16(h.foff) + [h.ttl, h.proto]
    + Store(o, h.csum) + Net32(h.src) + Net32(h.dst)
  }

  /** ip_ntoh. */
  function Parse(o: Order, b: seq<Byte>): IpHdr
    requires |b| >= 20
  {
    IpHdr(b[0], b[1], Host16(b[2..4]), Host16(b[4..6]), Host16(b[6..8]), b[8], b[9],
      Load(o, b[10], b[11]), Host32(b[12..16]), Host32(b[16..20]))
  }

  /** Two and four bytes, the high one first. */
  ghost function Pair(b0: int, b1: int): int {
    b0 * 0x100 + b1
  }

  ghost function Quad(b0: int, b1: int, b2: int, b3: int): int {
    b0 * 0x100_0000 + b1 * 0x1_0000 + b2 * 0x100 + b3
  }

  /** The fields in the bytes of a header (section 3.1 of RFC 791); the checksum is as the host stores it. */
  ghost predicate InBytes(o: Order, b: seq<Byte>, h: IpHdr)
    requires |b| >= 20
  {
    && b[0] == h.vhl && b[1] == h.tos && Pair(b[2], b[3]) == h.len && Pair(b[4], b[5]) == h.id
    && Pair(b[6], b[7]) == h.foff && b[8] == h.ttl && b[9] == h.proto
    && (if o == BigEndian then Pair(b[10], b[11]) else Pair(b[11], b[10])) == h.csum
    && Quad(b[12], b[13], b[14], b[15]) == h.src && Quad(b[16], b[17], b[18], b[19]) == h.dst
  }

  lemma FieldBytes(o: Order, h: IpHdr)
    ensures InBytes(o, Fields(o, h), h)
  {
    QuadBytes(h.src);
    QuadBytes(h.dst);
  }

  lemma QuadBytes(a: Addr)
    ensures var b := Net32(a); |b| == 4 && Quad(b[0], b[1], b[2], b[3]) == a
  {
  }

  /** What ip_ntoh and the macros on its result read from a packet. */
  lemma ParseBytes(o: Order, b: seq<Byte>)
    requires |b| >= 20
    ensures var h := Parse(o, b);
      && InBytes(o, b, h) && Hlen(h) == b[0] % 16 * 4 && Offset(h) == Pair(b[6] % 32, b[7]) * 8
      && (MoreFragments(h) <==> b[6] / 32 % 2 == 1)
  {
    FlagByte(b[6], b[7]);
  }

  /** Equal fields are equal bytes. */
  lemma PairSame(a0: Byte, a1: Byte, b0: Byte, b1: Byte)
    ensures Pair(a0, a1) == Pair(b0, b1) <==> a0 == b0 && a1 == b1
  {
  }

  lemma QuadSame(a: seq<Byte>, b: seq<Byte>)
    requires |a| == 4 && |b| == 4 && Quad(a[0], a[1], a[2], a[3]) == Quad(b[0], b[1], b[2], b[3])
    ensures a == b
  {
    PairSame(a[0], a[1], b[0], b[1]);
    PairSame(a[2], a[3], b[2], b[3]);
    assert Quad(a[0], a[1], a[2], a[3]) == Pair(a[0], a[1]) * 0x1_0000 + Pair(a[2], a[3]);
    assert Quad(b[0], b[1], b[2], b[3]) == Pair(b[0], b[1]) * 0x1_0000 + Pair(b[2], b[3]);
  }

  lemma FlagByte(hi: int, lo: Byte)
    ensures Pair(hi, lo) % 0x2000 == Pair(hi % 32, lo) && Pair(hi, lo) / 0x2000 == hi / 32
  {
    var q, r := hi / 32, hi % 32;
    assert Pair(hi, lo) == 0x2000 * q + Pair(r, lo);
  }

  lemma Net16Host(w: Word)
    ensures |Net16(w)| == 2 && Host16(Net16(w)) == w
  {
  }

  lemma Net32Host(a: Addr)
    ensures |Net32(a)| == 4 && Host32(Net32(a)) == a
  {
    Net16Host(a / 65536);
    Net16Host(a % 65536);
    assert Net32(a)[..2] == Net16(a / 65536) && Net32(a)[2..] == Net16(a % 65536);
  }

  /** Reading back what was written. */
  lemma ParseFields(o: Order, h: IpHdr, rest: seq<Byte>)
    ensures Parse(o, Fields(o, h) + rest) == h
  {
    var b := Fields(o, h) + rest;
    Net16Host(h.len);
    Net16Host(h.id);
    Net16Host(h.foff);
    Net32Host(h.src);
    Net32Host(h.dst);
    assert b[2..4] == Net16(h.len) && b[4..6] == Net16(h.id) && b[6..8] == Net16(h.foff);
    assert b[10..12] == Store(o, h.csum);
    assert b[12..16] == Net32(h.src) && b[16..20] == Net32(h.dst);
  }

  /** What ip_hton leaves in a buffer: the fields, and the checksum of the whole header over a zeroed field. */
  function Headed(o: Order, h: IpHdr, buf: seq<Byte>): (b: seq<Byte>)
    requires |buf| >= 20 && Hlen(h) <= |buf|
    ensures |b| == |buf|
  {
    Fields(o, h.(csum := HeaderSum(o, h, buf))) + buf[20..]
  }

  function HeaderSum(o: Order, h: IpHdr, buf: seq<Byte>): Word
    requires |buf| >= 20 && Hlen(h) <= |buf|
  {
    Sum16(o, (Fields(o, h.(csum := 0)) + buf[20..])[..Hlen(h)])
  }

  /** The fields but for the checksum survive, and the header checks to 0. */
  lemma HeadedRoundTrip(o: Order, h: IpHdr, buf: seq<Byte>)
    requires |buf| >= 20 && 20 <= Hlen(h) <= |buf|
    ensures Parse(o, Headed(o, h, buf)) == h.(csum := HeaderSum(o, h, buf))
    ensures Sum16(o, Headed(o, h, buf)[..Hlen(h)]) == 0
    ensures Headed(o, h, buf)[20..] == buf[20..]
  {
    hide Fields, Sum16, Put, Parse;
    var c, n, rest := HeaderSum(o, h, buf), Hlen(h), buf[20..Hlen(h)];
    ParseFields(o, h.(csum := c), buf[20..]);
    Front(Fields(o, h.(csum := 0)), buf, n);
    Front(Fields(o, h.(csum := c)), buf, n);
    var zeroed := Fields(o, h.(csum := 0)) + rest;
    FieldsPut(o, h, 0);
    FieldsPut(o, h, c);
    PutInFront(o, Fields(o, h.(csum := 0)), rest, 10, 0);
    PutInFront(o, Fields(o, h.(csum := 0)), rest, 10, c);
    ChecksVerifies(o, zeroed, 10, c);
  }

  lemma Front(a: seq<Byte>, buf: seq<Byte>, n: nat)
    requires |a| == 20 && 20 <= n <= |buf|
    ensures (a + buf[20..])[..n] == a + buf[20..n] && (a + buf[20..])[20..] == buf[20..]
  {
  }

  /** Only the options of the buffer matter for the header. */
  lemma HeadedLocal(o: Order, h: IpHdr, a: seq<Byte>, b: seq<Byte>)
    requires |a| >= 20 && |b| >= 20 && 20 <= Hlen(h) && Hlen(h) <= |a| && Hlen(h) <= |b|
    requires a[20..Hlen(h)] == b[20..Hlen(h)]
    ensures Headed(o, h, a)[..Hlen(h)] == Headed(o, h, b)[..Hlen(h)]
  {
    var n := Hlen(h);
    var z := Fields(o, h.(csum := 0));
    assert (z + a[20..])[..n] == z + a[20..n] && (z + b[20..])[..n] == z + b[20..n];
    var c := Fields(o, h.(csum := HeaderSum(o, h, a)));
    assert (c + a[20..])[..n] == c + a[20..n] && (c + b[20..])[..n] == c + b[20..n];
  }

  lemma FieldsPut(o: Order, h: IpHdr, w: Word)
    ensures Fields(o, h.(csum := w)) == Put(o, Fields(o, h.(csum := 0)), 10, w)
  {
    Net16Host(h.len);
    Net16Host(h.id);
    Net16Host(h.foff);
  }

  /** Copies bytes into a buffer. */
  method Blit(dst: array<Byte>, at: nat, src: seq<Byte>)
    requires at + |src| <= dst.Length
    modifies dst
    ensures dst[..] == old(dst[..at]) + src + old(dst[at + |src|..])
  {
    for i := 0 to |src|
      invariant dst[..at] == old(dst[..at]) && dst[at..at + i] == src[..i]
      invariant dst[at + |src|..] == old(dst[at + |src|..])
    {
      dst[at + i] := src[i];
      assert dst[at..at + i + 1] == dst[at..at + i] + [src[i]];
    }
    assert src[..|src|] == src;
    assert dst[..] == dst[..at] + dst[at..at + |src|] + dst[at + |src|..];
  }

  /** ip_hton into a buffer that may hold options and data behind the fixed part. */
  method IpHton(o: Order, host: IpHdr, net: array<Byte>)
    requires net.Length >= 20 && Hlen(host) <= net.Length
    modifies net
    ensures net[..] == Headed(o, host, old(net[..]))
  {
    hide Fields, Sum16, Hlen, Put, Store;
    ghost var rest := net[20..];
    var hlen := Hlen(host);
    Blit(net, 0, Fields(o, host.(csum := 0)));
    ghost var zeroed := Fields(o, host.(csum := 0)) + rest;
    assert net[..] == zeroed;
    var csum := IpChecksum(o, net[..hlen]);
    assert net[..hlen] == zeroed[..hlen];
    PutIsStore(o, zeroed, 10, csum);
    Blit(net, 10, Store(o, csum));
    PutInFront(o, Fields(o, host.(csum := 0)), rest, 10, csum);
    FieldsPut(o, host, csum);
  }

  lemma PutIsStore(o: Order, b: seq<Byte>, p: nat, w: Word)
    requires p + 1 < |b|
    ensures |Store(o, w)| == 2 && Put(o, b, p, w) == b[..p] + Store(o, w) + b[p + 2..]
  {
  }

  lemma PutInFront(o: Order, a: seq<Byte>, rest: seq<Byte>, p: nat, w: Word)
    requires p + 1 < |a|
    ensures Put(o, a + rest, p, w) == Put(o, a, p, w) + rest
  {
  }
}
