/** Cutting a packet into fragments inside its own buffer (src/ip.c:225-273), section 3.2 of RFC 791. */
module IpSend {
  import opened Checksum
  import opened IpHeader

  const ETHER_DATA_LEN: nat := 1500

  /** ip_off_round. */
  function OffRound(plen: nat): nat {
    (plen + 7) / 8 * 8
  }

  function NextFragmentSize(bytes: nat, hlen: nat, mtu: nat): nat
    requires hlen + 8 <= mtu
  {
    var max := OffRound(mtu - hlen - 8);
    if bytes < max then bytes else max
  }

  /** A fragment: where its data belongs, the data, and whether more follow. */
  datatype Fragment = Fragment(off: nat, data: seq<Byte>, more: bool)

  /** The fragments of data from an offset on. */
  function Cut(data: seq<Byte>, hlen: nat, off: nat): (fs: seq<Fragment>)
    requires hlen <= 60 && off <= |data|
    ensures fs != []
    ensures forall i | 0 <= i < |fs| :: fs[i].off + |fs[i].data| <= |data|
    decreases |data| - off
  {
    var plen := NextFragmentSize(|data| - off, hlen, ETHER_DATA_LEN);
    var more := off + plen < |data|;
    var f := Fragment(off, data[off..off + plen], more);
    if more then [f] + Cut(data, hlen, off + plen) else [f]
  }

  /** The header of a fragment. */
  function FragmentHeader(h: IpHdr, f: Fragment): IpHdr
    requires Hlen(h) + f.off + |f.data| < 65536
  {
    h.(len := Hlen(h) + |f.data|, foff := (if f.more then FLAG_MF else 0) + f.off / 8)
  }

  /** The packet that carries a fragment; buf supplies the header options. */
  function Packet(o: Order, h: IpHdr, buf: seq<Byte>, f: Fragment): seq<Byte>
    requires 20 <= Hlen(h) <= |buf| && Hlen(h) + f.off + |f.data| < 65536
  {
    Headed(o, FragmentHeader(h, f), buf)[..Hlen(h)] + f.data
  }

  function Packets(o: Order, h: IpHdr, buf: seq<Byte>, fs: seq<Fragment>): (ps: seq<seq<Byte>>)
    requires 20 <= Hlen(h) <= |buf|
    requires forall i | 0 <= i < |fs| :: Hlen(h) + fs[i].off + |fs[i].data| < 65536
    ensures |ps| == |fs| && forall i | 0 <= i < |fs| :: ps[i] == Packet(o, h, buf, fs[i])
  {
    if fs == [] then [] else [Packet(o, h, buf, fs[0])] + Packets(o, h, buf, fs[1..])
  }

  /** What holds for every fragment of data. */
  ghost predicate IsPiece(f: Fragment, data: seq<Byte>, hlen: nat) {
    && f.off + |f.data| <= |data| && f.data == data[f.off..f.off + |f.data|] && f.off % 8 == 0
    && hlen + |f.data| <= 1500
    && (f.more <==> f.off + |f.data| < |data|)
    && (f.more ==> |f.data| > 0 && |f.data| % 8 == 0)
  }

  ghost function Joined(fs: seq<Fragment>): seq<Byte> {
    if fs == [] then [] else fs[0].data + Joined(fs[1..])
  }

  /** Pieces in order, without gaps, of which only the last one is final. */
  ghost predicate IsCut(fs: seq<Fragment>, data: seq<Byte>, hlen: nat) {
    && (forall i | 0 <= i < |fs| :: IsPiece(fs[i], data, hlen) && (fs[i].more <==> i < |fs| - 1))
    && (forall i | 0 <= i < |fs| - 1 :: fs[i + 1].off == fs[i].off + |fs[i].data|)
  }

  /** The fragments are pieces of the data in order, and together they are the data. */
  lemma {:induction false} CutIsFaithful(data: seq<Byte>, hlen: nat, off: nat)
    requires hlen <= 60 && hlen % 4 == 0 && off <= |data| && off % 8 == 0
    ensures var fs := Cut(data, hlen, off);
      Joined(fs) == data[off..] && fs[0].off == off && IsCut(fs, data, hlen)
    decreases |data| - off
  {
    hide IsPiece;
    var plen := NextFragmentSize(|data| - off, hlen, ETHER_DATA_LEN);
    var f := Fragment(off, data[off..off + plen], off + plen < |data|);
    FirstPiece(data, hlen, off);
    if f.more {
      CutIsFaithful(data, hlen, off + plen);
      Prepend(f, Cut(data, hlen, off + plen), data, hlen);
      assert data[off..] == f.data + data[off + plen..];
    } else {
      assert Joined([f]) == f.data + Joined([f][1..]);
      assert f.data == data[off..];
    }
  }

  /** n steps from an offset on. */
  function Steps(off: nat, step: nat, n: nat): nat
    decreases n
  {
    if n == 0 then off else Steps(off + step, step, n - 1)
  }

  lemma {:induction false} StepsTimes(off: nat, step: nat, n: nat)
    ensures Steps(off, step, n) == off + n * step
    decreases n
  {
    if n > 0 {
      StepsTimes(off + step, step, n - 1);
      assert n * step == step + (n - 1) * step;
    }
  }

  lemma {:induction false} StepsRise(off: nat, step: nat, n: nat)
    ensures Steps(off, step, n) >= off
    decreases n
  {
    if n > 0 {
      StepsRise(off + step, step, n - 1);
    }
  }

  /** All fragments but the last have one size. */
  lemma {:induction false} CutSizes(data: seq<Byte>, hlen: nat, off: nat, n: nat)
    requires hlen <= 60 && off <= |data|
    ensures var fs, max := Cut(data, hlen, off), OffRound(ETHER_DATA_LEN - hlen - 8);
      && (n < |fs| <==> n == 0 || Steps(off, max, n) < |data|)
      && (n < |fs| ==> fs[n].off == Steps(off, max, n))
    decreases n
  {
    hide OffRound;
    var max := OffRound(ETHER_DATA_LEN - hlen - 8);
    if n > 0 {
      StepsRise(off + max, max, n - 1);
      MaxPositive(hlen);
      if off + max < |data| {
        CutSizes(data, hlen, off + max, n - 1);
      }
    }
  }

  lemma MaxPositive(hlen: nat)
    requires hlen <= 60
    ensures OffRound(ETHER_DATA_LEN - hlen - 8) > 0
  {
  }

  lemma FirstPiece(data: seq<Byte>, hlen: nat, off: nat)
    requires hlen <= 60 && hlen % 4 == 0 && off <= |data| && off % 8 == 0
    ensures var plen := NextFragmentSize(|data| - off, hlen, ETHER_DATA_LEN);
      && IsPiece(Fragment(off, data[off..off + plen], off + plen < |data|), data, hlen)
      && (off + plen < |data| ==> plen > 0 && plen % 8 == 0)
  {
  }

  lemma Prepend(f: Fragment, rest: seq<Fragment>, data: seq<Byte>, hlen: nat)
    requires IsPiece(f, data, hlen) && f.more
    requires rest != [] && rest[0].off == f.off + |f.data| && IsCut(rest, data, hlen)
    ensures Joined([f] + rest) == f.data + Joined(rest) && IsCut([f] + rest, data, hlen)
  {
    hide IsPiece;
    var fs := [f] + rest;
    assert fs[1..] == rest;
    forall i | 0 <= i < |fs| ensures IsPiece(fs[i], data, hlen) && (fs[i].more <==> i < |fs| - 1) {
      assert i > 0 ==> fs[i] == rest[i - 1];
    }
    forall i | 0 <= i < |fs| - 1 ensures fs[i + 1].off == fs[i].off + |fs[i].data| {
      assert fs[i + 1] == rest[i] && (i > 0 ==> fs[i] == rest[i - 1]);
    }
  }

  ghost function Total(eret: nat -> int, n: nat): int {
    if n == 0 then 0 else Total(eret, n - 1) + eret(n - 1)
  }

  lemma TotalNext(eret: nat -> int, n: nat)
    ensures Total(eret, 0) == 0 && Total(eret, n + 1) == Total(eret, n) + eret(n)
  {
  }

  /** memmove within one buffer, towards its front. */
  method Memmove(a: array<Byte>, dst: nat, src: nat, n: nat)
    requires dst <= src && src + n <= a.Length
    modifies a
    ensures a[..] == old(a[..dst]) + old(a[src..src + n]) + old(a[dst + n..])
  {
    var moved := a[src..src + n];
    Blit(a, dst, moved);
  }

  /** The buffer still holds the options, and the data from an offset on. */
  ghost predicate Holds(b: seq<Byte>, buf: seq<Byte>, hlen: nat, bsize: nat, offset: nat) {
    && 20 <= hlen && hlen + offset <= bsize <= |buf| && |b| == |buf|
    && b[20..hlen] == buf[20..hlen] && b[hlen + offset..bsize] == buf[hlen + offset..bsize]
  }

  /** One round: header, data, and the packet handed to ether_send. */
  method Emit(o: Order, payload: array<Byte>, ip_hdr: IpHdr, offset: nat, plen: nat,
      ghost buf: seq<Byte>, ghost bsize: nat) returns (packet: seq<Byte>)
    requires Holds(payload[..], buf, Hlen(ip_hdr), bsize, offset) && Hlen(ip_hdr) + offset + plen <= bsize
    requires offset > 0 ==> plen <= offset
    requires ip_hdr.len == Hlen(ip_hdr) + plen
    modifies payload
    ensures Holds(payload[..], buf, Hlen(ip_hdr), bsize, offset + plen)
    ensures var hlen := Hlen(ip_hdr);
      packet == Headed(o, ip_hdr, buf)[..hlen] + buf[hlen + offset..hlen + offset + plen]
  {
    hide Headed, Hlen, Parse;
    ghost var hlen, b0 := Hlen(ip_hdr), payload[..];
    IpHton(o, ip_hdr, payload);
    ghost var b1 := payload[..];
    HeadedOverwrites(o, ip_hdr, b0, buf);
    Memmove(payload, Hlen(ip_hdr), Hlen(ip_hdr) + offset, plen);
    ghost var b2 := payload[..];
    Moved(b0, b1, b2, buf, hlen, bsize, offset, plen);
    packet := payload[..ip_hdr.len];
    assert packet == b2[..hlen + plen];
  }

  lemma HeadedOverwrites(o: Order, h: IpHdr, b0: seq<Byte>, buf: seq<Byte>)
    requires |b0| == |buf| && 20 <= Hlen(h) <= |buf| && b0[20..Hlen(h)] == buf[20..Hlen(h)]
    ensures Headed(o, h, b0)[20..] == b0[20..]
    ensures Headed(o, h, b0)[..Hlen(h)] == Headed(o, h, buf)[..Hlen(h)]
  {
    HeadedLocal(o, h, b0, buf);
    hide Fields;
  }

  lemma Moved(b0: seq<Byte>, b1: seq<Byte>, b2: seq<Byte>, buf: seq<Byte>,
      hlen: nat, bsize: nat, offset: nat, plen: nat)
    requires Holds(b0, buf, hlen, bsize, offset) && hlen + offset + plen <= bsize
    requires offset > 0 ==> plen <= offset
    requires |b1| == |b0| && b1[20..] == b0[20..]
    requires b2 == b1[..hlen] + b1[hlen + offset..hlen + offset + plen] + b1[hlen + plen..]
    ensures Holds(b2, buf, hlen, bsize, offset + plen)
    ensures b2[..hlen + plen] == b1[..hlen] + buf[hlen + offset..hlen + offset + plen]
  {
    var at := hlen + offset;
    BackSlice(b0, b1, 20, 20, hlen);
    BackSlice(b0, b1, 20, at, bsize);
    Slice(b1, at, bsize, 0, plen);
    Slice(buf, at, bsize, 0, plen);
    Slice(b1, at, bsize, plen, bsize - at);
    Slice(buf, at, bsize, plen, bsize - at);
    Spliced(b1[..hlen], b1[at..at + plen], b1[hlen + plen..]);
    FrontSlice(b2, b1, hlen);
    BackSlice(b2, b1, hlen + plen, at + plen, bsize);
  }

  /** A piece between two others. */
  lemma Spliced(a: seq<Byte>, m: seq<Byte>, c: seq<Byte>)
    ensures (a + m + c)[..|a|] == a && (a + m + c)[..|a| + |m|] == a + m && (a + m + c)[|a| + |m|..] == c
  {
  }

  lemma FrontSlice(a: seq<Byte>, b: seq<Byte>, n: nat)
    requires n <= |a| && n <= |b| && a[..n] == b[..n] && 20 <= n
    ensures a[20..n] == b[20..n]
  {
    assert a[..n] == a[0..n] && b[..n] == b[0..n];
    Slice(a, 0, n, 20, n);
    Slice(b, 0, n, 20, n);
  }

  lemma BackSlice(a: seq<Byte>, b: seq<Byte>, p: nat, i: nat, j: nat)
    requires |a| == |b| && p <= i <= j <= |a| && a[p..] == b[p..]
    ensures a[i..j] == b[i..j]
  {
    assert a[p..] == a[p..|a|] && b[p..] == b[p..|b|];
    Slice(a, p, |a|, i - p, j - p);
    Slice(b, p, |b|, i - p, j - p);
  }

  /** The fragment that a round makes at an offset. */
  function Piece(buf: seq<Byte>, hlen: nat, bsize: nat, off: nat): Fragment
    requires hlen <= 60 && hlen + off <= bsize <= |buf|
  {
    var plen := NextFragmentSize(bsize - hlen - off, hlen, ETHER_DATA_LEN);
    Fragment(off, buf[hlen + off..hlen + off + plen], hlen + off + plen < bsize)
  }

  lemma Slice(buf: seq<Byte>, a: nat, b: nat, i: nat, j: nat)
    requires a <= b <= |buf| && i <= j <= b - a
    ensures buf[a..b][i..j] == buf[a + i..a + j]
  {
    var l, r := buf[a..b][i..j], buf[a + i..a + j];
    assert |l| == |r| && forall k | 0 <= k < |l| :: l[k] == buf[a..b][i + k] == r[k];
  }

  /** The packets for the data from an offset on. */
  function From(o: Order, h: IpHdr, buf: seq<Byte>, bsize: nat, off: nat): (ps: seq<seq<Byte>>)
    requires 20 <= Hlen(h) && Hlen(h) + off <= bsize <= |buf| && bsize <= 65535
  {
    Packets(o, h, buf, Cut(buf[Hlen(h)..bsize], Hlen(h), off))
  }

  /** The packets of the rest of the data: the next piece, then the rest after it. */
  lemma FirstPacket(o: Order, h: IpHdr, buf: seq<Byte>, bsize: nat, off: nat)
    requires 20 <= Hlen(h) && Hlen(h) + off <= bsize <= |buf| && bsize <= 65535
    ensures var hlen := Hlen(h);
      var f := Piece(buf, hlen, bsize, off);
      From(o, h, buf, bsize, off) ==
        [Packet(o, h, buf, f)] + if f.more then From(o, h, buf, bsize, off + |f.data|) else []
  {
    hide Packet;
    var hlen := Hlen(h);
    var data, f := buf[hlen..bsize], Piece(buf, hlen, bsize, off);
    Slice(buf, hlen, bsize, off, off + |f.data|);
    var fs := Cut(data, hlen, off);
    assert fs[0] == f;
    assert fs[1..] == if f.more then Cut(data, hlen, off + |f.data|) else [];
  }

  lemma PacketOf(o: Order, h: IpHdr, g: IpHdr, buf: seq<Byte>, f: Fragment)
    requires 20 <= Hlen(h) <= |buf| && Hlen(h) + f.off + |f.data| < 65536
    requires g == h.(len := Hlen(h) + |f.data|, foff := (if f.more then FLAG_MF else 0) + f.off / 8)
    ensures Hlen(g) == Hlen(h) && Packet(o, h, buf, f) == Headed(o, g, buf)[..Hlen(g)] + f.data
  {
  }

  lemma HoldsSizes(b: seq<Byte>, buf: seq<Byte>, hlen: nat, bsize: nat, offset: nat)
    requires Holds(b, buf, hlen, bsize, offset)
    ensures 20 <= hlen && hlen + offset <= bsize <= |buf| == |b|
  {
  }

  lemma PieceFields(h: IpHdr, buf: seq<Byte>, bsize: nat, off: nat)
    requires Hlen(h) + off <= bsize <= |buf| && bsize <= 65535
    ensures var hlen, f := Hlen(h), Piece(buf, Hlen(h), bsize, off);
      var plen := NextFragmentSize(bsize - hlen - off, hlen, ETHER_DATA_LEN);
      && plen <= OffRound(ETHER_DATA_LEN - hlen - 8) && plen <= bsize - hlen - off
      && f == Fragment(off, buf[hlen + off..hlen + off + plen], plen < bsize - hlen - off)
  {
  }

  /** One round of the loop. */
  method Round(o: Order, payload: array<Byte>, ip_hdr0: IpHdr, offset: nat, bytes0: nat,
      ghost buf: seq<Byte>, ghost bsize: nat)
    returns (ip_hdr: IpHdr, bytes: nat, packet: seq<Byte>)
    requires Holds(payload[..], buf, Hlen(ip_hdr0), bsize, offset) && bsize <= 65535
    requires bytes0 == bsize - Hlen(ip_hdr0) - offset
    requires offset > 0 ==> offset >= OffRound(ETHER_DATA_LEN - Hlen(ip_hdr0) - 8)
    modifies payload
    ensures ip_hdr == ip_hdr0.(len := ip_hdr.len, foff := ip_hdr.foff)
    ensures var f := Piece(buf, Hlen(ip_hdr0), bsize, offset);
      && packet == Packet(o, ip_hdr0, buf, f) && bytes == bytes0 - |f.data|
      && Holds(payload[..], buf, Hlen(ip_hdr0), bsize, offset + |f.data|)
  {
    hide Headed, Holds, Piece, NextFragmentSize, OffRound, Packet, FragmentHeader, Hlen;
    var hlen := Hlen(ip_hdr0);
    var plen := NextFragmentSize(bytes0, hlen, ETHER_DATA_LEN);
    HoldsSizes(payload[..], buf, hlen, bsize, offset);
    PieceFields(ip_hdr0, buf, bsize, offset);
    bytes := bytes0 - plen;
    ip_hdr := ip_hdr0.(len := hlen + plen, foff := (if bytes != 0 then FLAG_MF else 0) + offset / 8);
    ghost var f := Piece(buf, hlen, bsize, offset);
    PacketOf(o, ip_hdr0, ip_hdr, buf, f);
    packet := Emit(o, payload, ip_hdr, offset, plen, buf, bsize);
  }

  /** The rounds change only the length and the fragment fields of the header, and a packet has its own. */
  lemma PacketAgrees(o: Order, h: IpHdr, g: IpHdr, buf: seq<Byte>, f: Fragment)
    requires 20 <= Hlen(h) <= |buf| && Hlen(h) + f.off + |f.data| < 65536
    requires g == h.(len := g.len, foff := g.foff)
    ensures Packet(o, g, buf, f) == Packet(o, h, buf, f)
  {
  }

  /** ip_send_fragments; eret(k) is what ether_send answers to packet k.

    Every round moves the next piece of data to the front of the buffer, over pieces sent before. */
  method IpSendFragments(o: Order, payload: array<Byte>, bsize: nat, eret: nat -> int)
    returns (retval: int, sent: seq<seq<Byte>>)
    requires payload.Length >= 20 && bsize <= payload.Length && bsize <= 65535
    requires 20 <= Hlen(Parse(o, payload[..])) <= bsize
    modifies payload
    ensures var buf := old(payload[..]);
      var h := Parse(o, buf);
      var ps := From(o, h, buf, bsize, 0);
      && sent <= ps && (forall i | 0 <= i < |sent| - 1 :: eret(i) >= 0)
      && (retval >= 0 ==> sent == ps && retval == Total(eret, |ps|))
      && (retval < 0 ==> sent != [] && retval == eret(|sent| - 1))
  {
    hide Packet, From, Holds, Parse, OffRound, Piece, NextFragmentSize, Total, Headed;
    ghost var buf := payload[..];
    var ip_hdr := Parse(o, payload[..]);
    var hlen := Hlen(ip_hdr);
    ghost var h := ip_hdr;
    ghost var ps := From(o, h, buf, bsize, 0);
    var bytes, offset := bsize - hlen, 0;
    retval, sent := 0, [];
    StartHolds(buf, hlen, bsize);
    TotalNext(eret, 0);
    while true
      invariant bytes == bsize - hlen - offset && Holds(payload[..], buf, hlen, bsize, offset)
      invariant offset % 8 == 0
      invariant offset > 0 ==> bytes > 0 && offset >= OffRound(ETHER_DATA_LEN - hlen - 8)
      invariant ip_hdr == h.(len := ip_hdr.len, foff := ip_hdr.foff)
      invariant ps == sent + From(o, h, buf, bsize, offset)
      invariant forall i | 0 <= i < |sent| :: eret(i) >= 0
      invariant retval == Total(eret, |sent|) >= 0
      decreases bytes
    {
      FirstPacket(o, h, buf, bsize, offset);
      ghost var f := Piece(buf, hlen, bsize, offset);
      PieceSize(buf, hlen, bsize, offset);
      PacketAgrees(o, h, ip_hdr, buf, f);
      var packet;
      var left := bytes;
      ip_hdr, bytes, packet := Round(o, payload, ip_hdr, offset, bytes, buf, bsize);
      assert packet == Packet(o, h, buf, f);
      OneMore(ps, sent, packet, if f.more then From(o, h, buf, bsize, offset + |f.data|) else []);
      sent := sent + [packet];
      if eret(|sent| - 1) < 0 {
        retval := eret(|sent| - 1);
        return;
      }
      TotalNext(eret, |sent| - 1);
      retval := retval + eret(|sent| - 1);
      offset := offset + (left - bytes);
      if bytes == 0 {
        return;
      }
    }
  }

  lemma OneMore(ps: seq<seq<Byte>>, sent: seq<seq<Byte>>, packet: seq<Byte>, rest: seq<seq<Byte>>)
    requires ps == sent + ([packet] + rest)
    ensures ps == (sent + [packet]) + rest && sent + [packet] <= ps && (rest == [] ==> ps == sent + [packet])
  {
  }

  lemma PieceSize(buf: seq<Byte>, hlen: nat, bsize: nat, off: nat)
    requires hlen <= 60 && hlen % 4 == 0 && hlen + off <= bsize <= |buf| && off % 8 == 0
    ensures var f := Piece(buf, hlen, bsize, off);
      && f.off == off && |f.data| <= bsize - hlen - off && (f.more <==> |f.data| < bsize - hlen - off)
      && (f.more ==> (off + |f.data|) % 8 == 0 && |f.data| == OffRound(ETHER_DATA_LEN - hlen - 8) > 0)
  {
  }

  lemma StartHolds(buf: seq<Byte>, hlen: nat, bsize: nat)
    requires 20 <= hlen <= bsize <= |buf|
    ensures Holds(buf, buf, hlen, bsize, 0)
  {
  }

  // ----- what the receiver finds in a packet

  /** A packet parses back into its fragment, with the other fields of the header as they were, and its
    header checks to 0. */
  lemma PacketParses(o: Order, h: IpHdr, buf: seq<Byte>, f: Fragment)
    requires 20 <= Hlen(h) <= |buf| && Hlen(h) + f.off + |f.data| < 65536 && f.off % 8 == 0
    ensures var p := Packet(o, h, buf, f);
      var g := Parse(o, p);
      && |p| == g.len == Hlen(g) + |f.data| && Hlen(g) == Hlen(h) && p[Hlen(g)..] == f.data
      && Offset(g) == f.off && MoreFragments(g) == f.more && g.foff < 0x4000
      && g == h.(len := g.len, foff := g.foff, csum := g.csum)
      && Sum16(o, p[..Hlen(g)]) == 0
  {
    hide Headed, Parse, Sum16;
    var g := FragmentHeader(h, f);
    var n := Hlen(h);
    HeadedRoundTrip(o, g, buf);
    var p := Packet(o, h, buf, f);
    assert p[..n] == Headed(o, g, buf)[..n];
    ParseLocal(o, p, Headed(o, g, buf));
    FoffFields(f);
  }

  /** The bytes of a packet: its own length, the reserved bit and DF clear, MF and the offset in blocks, a header that
    adds up to 0, and everything else as in the packet that is cut up. */
  lemma PacketBytes(o: Order, buf: seq<Byte>, f: Fragment)
    requires |buf| >= 20 && 20 <= Hlen(Parse(o, buf)) <= |buf|
    requires Hlen(Parse(o, buf)) + f.off + |f.data| < 65536 && f.off % 8 == 0
    ensures var p := Packet(o, Parse(o, buf), buf, f);
      var n := buf[0] % 16 * 4;
      && |p| == n + |f.data| && p[n..] == f.data && Pair(p[2], p[3]) == |p|
      && p[6] / 64 == 0 && (p[6] / 32 % 2 == 1 <==> f.more) && Pair(p[6] % 32, p[7]) * 8 == f.off
      && ByPlace(p[..n], 256, 1) % 65535 == 0
      && forall i | 0 <= i < n && i !in {2, 3, 6, 7, 10, 11} :: p[i] == buf[i]
  {
    hide Packet, Parse, Sum16, Hlen, Offset, MoreFragments, ByPlace;
    var h := Parse(o, buf);
    var p := Packet(o, h, buf, f);
    PacketParses(o, h, buf, f);
    ParseBytes(o, p);
    ParseBytes(o, buf);
    ChecksOnWire(o, p[..Hlen(h)]);
    FlagByte(p[6], p[7]);
    HighBits(p[6], p[7]);
    SameHeader(o, p, buf);
    PacketOptions(o, h, buf, f);
  }

  /** The payload bytes of every packet but the last: what a frame of 1500 holds behind the header, in blocks of 8. */
  ghost function StepSize(hlen: nat): nat
    requires 20 <= hlen <= 60
  {
    1472 - (hlen - 20) / 8 * 8
  }

  /** p is number i of the n packets into which the first bsize bytes of buf are cut. */
  ghost predicate WireFragment(p: seq<Byte>, buf: seq<Byte>, bsize: nat, i: nat, n: nat)
    requires |buf| >= 20 && 20 <= buf[0] % 16 * 4 <= bsize <= |buf|
  {
    var hlen := buf[0] % 16 * 4;
    var off := i * StepSize(hlen);
    var end := if i == n - 1 then bsize else hlen + off + StepSize(hlen);
    && hlen + off <= end <= bsize && hlen <= |p| <= 1500 && p[hlen..] == buf[hlen + off..end]
    && Pair(p[2], p[3]) == |p| && Pair(p[6] % 32, p[7]) * 8 == off
    && p[6] / 64 == 0 && (p[6] / 32 % 2 == 1 <==> i < n - 1)
    && ByPlace(p[..hlen], 256, 1) % 65535 == 0
    && forall j | 0 <= j < hlen && j !in {2, 3, 6, 7, 10, 11} :: p[j] == buf[j]
  }

  /** What goes out for a packet in buf, byte for byte: as few packets of that size as hold the payload, and the rest of
    it in the last. */
  lemma OnTheWire(o: Order, buf: seq<Byte>, bsize: nat)
    requires |buf| >= 20 && 20 <= buf[0] % 16 * 4 <= bsize <= |buf| && bsize <= 65535
    ensures Hlen(Parse(o, buf)) == buf[0] % 16 * 4
    ensures var ps, hlen := From(o, Parse(o, buf), buf, bsize, 0), buf[0] % 16 * 4;
      && ps != [] && bsize - hlen <= |ps| * StepSize(hlen)
      && (|ps| > 1 ==> (|ps| - 1) * StepSize(hlen) < bsize - hlen)
      && forall i | 0 <= i < |ps| :: WireFragment(ps[i], buf, bsize, i, |ps|)
  {
    hide Parse, Packet, Cut, IsPiece, Hlen, WireFragment, StepSize;
    ParseBytes(o, buf);
    var h := Parse(o, buf);
    var hlen := Hlen(h);
    var data := buf[hlen..bsize];
    var fs := Cut(data, hlen, 0);
    CutIsFaithful(data, hlen, 0);
    CutCount(data, hlen);
    forall i | 0 <= i < |fs| ensures WireFragment(Packet(o, h, buf, fs[i]), buf, bsize, i, |fs|) {
      PlaceOf(data, hlen, i);
      PieceOnWire(o, buf, bsize, fs[i], i, |fs|);
    }
  }

  lemma CutCount(data: seq<Byte>, hlen: nat)
    requires 20 <= hlen <= 60 && hlen % 4 == 0
    ensures var fs := Cut(data, hlen, 0);
      |data| <= |fs| * StepSize(hlen) && (|fs| > 1 ==> (|fs| - 1) * StepSize(hlen) < |data|)
  {
    hide Cut;
    StepIs(hlen);
    var n := |Cut(data, hlen, 0)|;
    CutSizes(data, hlen, 0, n);
    StepsTimes(0, StepSize(hlen), n);
    CutSizes(data, hlen, 0, n - 1);
    StepsTimes(0, StepSize(hlen), n - 1);
  }

  lemma OffsetOf(data: seq<Byte>, hlen: nat, i: nat)
    requires 20 <= hlen <= 60 && hlen % 4 == 0 && i < |Cut(data, hlen, 0)|
    ensures Cut(data, hlen, 0)[i].off == i * StepSize(hlen)
  {
    hide Cut, StepSize, OffRound, Steps;
    StepIs(hlen);
    CutSizes(data, hlen, 0, i);
    StepsTimes(0, StepSize(hlen), i);
  }

  /** Where fragment i begins, and its size if it is not the last. */
  lemma PlaceOf(data: seq<Byte>, hlen: nat, i: nat)
    requires 20 <= hlen <= 60 && hlen % 4 == 0 && i < |Cut(data, hlen, 0)|
    ensures var f := Cut(data, hlen, 0)[i];
      f.off == i * StepSize(hlen) && (f.more ==> |f.data| == StepSize(hlen))
  {
    hide Cut, StepSize, IsPiece;
    var fs := Cut(data, hlen, 0);
    CutIsFaithful(data, hlen, 0);
    OffsetOf(data, hlen, i);
    if i < |fs| - 1 {
      OffsetOf(data, hlen, i + 1);
      Following(fs, data, hlen, i);
      OneStep(i, StepSize(hlen));
    }
  }

  lemma Following(fs: seq<Fragment>, data: seq<Byte>, hlen: nat, i: nat)
    requires IsCut(fs, data, hlen) && i < |fs| - 1
    ensures fs[i + 1].off == fs[i].off + |fs[i].data|
  {
  }

  lemma OneStep(i: nat, step: nat)
    ensures (i + 1) * step == i * step + step
  {
  }

  lemma StepIs(hlen: nat)
    requires 20 <= hlen <= 60 && hlen % 4 == 0
    ensures OffRound(ETHER_DATA_LEN - hlen - 8) == StepSize(hlen)
  {
  }

  lemma PieceOnWire(o: Order, buf: seq<Byte>, bsize: nat, f: Fragment, i: nat, n: nat)
    requires |buf| >= 20 && 20 <= buf[0] % 16 * 4 <= bsize <= |buf| && bsize <= 65535
    requires Hlen(Parse(o, buf)) == buf[0] % 16 * 4
    requires var hlen := buf[0] % 16 * 4;
      && i < n && IsPiece(f, buf[hlen..bsize], hlen) && (f.more <==> i < n - 1) && f.off == i * StepSize(hlen)
      && (f.more ==> |f.data| == StepSize(hlen))
    ensures var hlen := buf[0] % 16 * 4;
      hlen + f.off + |f.data| < 65536 && WireFragment(Packet(o, Parse(o, buf), buf, f), buf, bsize, i, n)
  {
    hide Parse, Packet, Hlen, ByPlace, Pair, StepSize;
    var hlen := buf[0] % 16 * 4;
    PacketBytes(o, buf, f);
    Slice(buf, hlen, bsize, f.off, f.off + |f.data|);
  }

  lemma HighBits(hi: int, lo: Byte)
    ensures Pair(hi, lo) < 0x4000 <==> hi < 64
  {
  }

  /** Headers that agree but for length, fragment fields and checksum have the same bytes there. */
  lemma SameHeader(o: Order, p: seq<Byte>, b: seq<Byte>)
    requires |p| >= 20 && |b| >= 20
    requires var g, h := Parse(o, p), Parse(o, b); g == h.(len := g.len, foff := g.foff, csum := g.csum)
    ensures forall i | 0 <= i < 20 && i !in {2, 3, 6, 7, 10, 11} :: p[i] == b[i]
  {
    hide Parse;
    ParseBytes(o, p);
    ParseBytes(o, b);
    PairSame(p[4], p[5], b[4], b[5]);
    QuadSame(p[12..16], b[12..16]);
    QuadSame(p[16..20], b[16..20]);
    assert forall i | 0 <= i < 4 :: p[12 + i] == p[12..16][i] && b[12 + i] == b[12..16][i];
    assert forall i | 0 <= i < 4 :: p[16 + i] == p[16..20][i] && b[16 + i] == b[16..20][i];
    assert p[12] == b[12] && p[13] == b[13] && p[14] == b[14] && p[15] == b[15];
    assert p[16] == b[16] && p[17] == b[17] && p[18] == b[18] && p[19] == b[19];
  }

  lemma PacketOptions(o: Order, h: IpHdr, buf: seq<Byte>, f: Fragment)
    requires 20 <= Hlen(h) <= |buf| && Hlen(h) + f.off + |f.data| < 65536
    ensures var p := Packet(o, h, buf, f); |p| >= Hlen(h) && forall i | 20 <= i < Hlen(h) :: p[i] == buf[i]
  {
    hide Headed, Hlen;
    var g, n := FragmentHeader(h, f), Hlen(h);
    SameHlen(h, f);
    var b := Headed(o, g, buf);
    HeadedRoundTrip(o, g, buf);
    forall i | 20 <= i < n ensures Packet(o, h, buf, f)[i] == buf[i] {
      assert b[i] == b[20..][i - 20] == buf[20..][i - 20];
    }
  }

  lemma SameHlen(h: IpHdr, f: Fragment)
    requires Hlen(h) + f.off + |f.data| < 65536
    ensures Hlen(FragmentHeader(h, f)) == Hlen(h)
  {
  }

  lemma ParseLocal(o: Order, a: seq<Byte>, b: seq<Byte>)
    requires |a| >= 20 && |b| >= 20 && a[..20] == b[..20]
    ensures Parse(o, a) == Parse(o, b)
  {
    assert forall i | 0 <= i < 20 :: a[i] == a[..20][i] == b[i];
    assert a[2..4] == b[2..4] && a[4..6] == b[4..6] && a[6..8] == b[6..8];
    assert a[12..16] == b[12..16] && a[16..20] == b[16..20];
  }

  lemma FoffFields(f: Fragment)
    requires f.off % 8 == 0 && f.off < 65536
    ensures var foff := (if f.more then FLAG_MF else 0) + f.off / 8;
      foff < 0x4000 && foff % 0x2000 * 8 == f.off && (foff / FLAG_MF % 2 == 1 <==> f.more)
  {
  }
}
