/** The state machine of one connection (src/tcp.c:197-333). */
module TcpConn {
  import opened Checksum
  import opened IpHeader
  import opened TcpHeader

  datatype State =
    | CLOSED | LISTEN | SYN_RCVD | SYN_SENT | ESTABLISHED | FIN_WAIT_1 | FIN_WAIT_2 | CLOSE_WAIT | CLOSING
    | LAST_ACK | TIME_WAIT

  /** The fields of a control block that the machine uses. */
  datatype Conn = Conn(state: State, recvNext: Seqno, sendNext: Seqno)

  /** n + 1 in 32 bits. */
  function Next(n: Seqno): Seqno {
    (n + 1) % 0x1_0000_0000
  }

  /** The segment acknowledges what was sent and starts where it should. */
  predicate Acknowledges(h: TcpHdr, c: Conn) {
    Ack(h) && h.seqno == c.recvNext && h.ackNum == c.sendNext
  }

  /** A reply is written over the segment. */
  predicate Replies(c: Conn, h: TcpHdr) {
    || (c.state == LISTEN && Syn(h))
    || (c.state == SYN_RCVD && !Acknowledges(h, c))
    || (c.state == ESTABLISHED && Fin(h))
  }

  function Reply(c: Conn, h: TcpHdr): TcpHdr {
    match c.state
    case LISTEN => WithAck(h).(ackNum := Next(h.seqno), seqno := 0)
    case SYN_RCVD => WithoutAck(h).(ackNum := h.seqno, seqno := c.sendNext)
    case _ => WithAck(h).(ackNum := Next(h.seqno), seqno := c.sendNext)
  }

  /** The state after a segment. */
  function After(c: Conn, h: TcpHdr): State {
    match c.state
    case LISTEN => if Syn(h) then SYN_RCVD else LISTEN
    case SYN_RCVD => if Acknowledges(h, c) then ESTABLISHED else SYN_RCVD
    case ESTABLISHED => if Fin(h) then LAST_ACK else ESTABLISHED
    case LAST_ACK => if Ack(h) then CLOSED else LAST_ACK
    case s => s
  }

  /** The connection after a segment: the numbers follow the reply. */
  function Moved(c: Conn, h: TcpHdr): Conn {
    if Replies(c, h) then Conn(After(c, h), Reply(c, h).ackNum, Next(Reply(c, h).seqno)) else c.(state := After(c, h))
  }

  function Returned(c: Conn, h: TcpHdr): int {
    if Replies(c, h) then HdrSize(h)
    else if c.state in {TIME_WAIT, SYN_SENT} || (c.state == LAST_ACK && !Ack(h)) then -EINVAL
    else 0
  }

  /** A segment in its buffer. */
  class Segment {
    var hdr: TcpHdr

    constructor (hdr: TcpHdr)
      ensures this.hdr == hdr
    {
      this.hdr := hdr;
    }
  }

  class Tcb {
    var state: State
    var recvNext: Seqno
    var sendNext: Seqno

    ghost function View(): Conn
      reads this
    {
      Conn(state, recvNext, sendNext)
    }

    // tcp_new_connection and the state that tcp_input gives it
    constructor ()
      ensures View() == Conn(LISTEN, 0, 0)
    {
      state, recvNext, sendNext := LISTEN, 0, 0;
    }

    // tcp_fsm
    method TcpFsm(rs: Segment) returns (ret: int)
      modifies this, rs
      ensures View() == Moved(old(View()), old(rs.hdr))
      ensures rs.hdr == if Replies(old(View()), old(rs.hdr)) then Reply(old(View()), old(rs.hdr)) else old(rs.hdr)
      ensures ret == Returned(old(View()), old(rs.hdr))
      ensures ret > 0 ==> ret == 4 * (old(rs.hdr.flags) / 4096)
    {
      match state
      case CLOSED =>
        return 0;
      case LISTEN =>
        if Syn(rs.hdr) {
          rs.hdr := WithAck(rs.hdr);
          rs.hdr := rs.hdr.(ackNum := Next(rs.hdr.seqno));
          rs.hdr := rs.hdr.(seqno := 0);
          state := SYN_RCVD;
          recvNext := rs.hdr.ackNum;
          sendNext := Next(rs.hdr.seqno);
          return HdrSize(rs.hdr);
        }
        return 0;
      case SYN_RCVD =>
        if Ack(rs.hdr) && rs.hdr.seqno == recvNext && rs.hdr.ackNum == sendNext {
          state := ESTABLISHED;
          return 0;
        }
        rs.hdr := WithoutAck(rs.hdr);
        rs.hdr := rs.hdr.(ackNum := rs.hdr.seqno);
        rs.hdr := rs.hdr.(seqno := sendNext);
        recvNext := rs.hdr.ackNum;
        sendNext := Next(rs.hdr.seqno);
        return HdrSize(rs.hdr);
      case ESTABLISHED =>
        if Fin(rs.hdr) {
          rs.hdr := WithAck(rs.hdr);
          rs.hdr := rs.hdr.(ackNum := Next(rs.hdr.seqno));
          rs.hdr := rs.hdr.(seqno := sendNext);
          state := LAST_ACK;
          recvNext := rs.hdr.ackNum;
          sendNext := Next(rs.hdr.seqno);
          return HdrSize(rs.hdr);
        }
        return 0;
      case FIN_WAIT_1 =>
        return 0;
      case FIN_WAIT_2 =>
        return 0;
      case CLOSE_WAIT =>
        return 0;
      case CLOSING =>
        return 0;
      case LAST_ACK =>
        if Ack(rs.hdr) {
          state := CLOSED;
          return 0;
        }
        return -EINVAL;
      case TIME_WAIT =>
        return -EINVAL;
      case SYN_SENT =>
        return -EINVAL;
    }
  }

  datatype Option<T> = None | Some(value: T)

  /** tcp_input gives the segment to the machine; a new connection begins in LISTEN. */
  predicate Heard(c: Option<Conn>, h: TcpHdr, bsize: nat) {
    bsize >= 20 && if c.None? then Syn(h) else !Syn(h) && HdrSize(h) >= 0
  }

  function Known(c: Option<Conn>): Conn {
    if c.None? then Conn(LISTEN, 0, 0) else c.value
  }

  /** Source and destination port exchanged. */
  function Turned(h: TcpHdr): TcpHdr {
    h.(sport := h.dport, dport := h.sport)
  }

  ghost function ViewOf(conn: Tcb?): Option<Conn>
    reads conn
  {
    if conn == null then None else Some(conn.View())
  }

  /** The header as tcp_input leaves it: a reply, with the ports exchanged when it is sent. */
  function Left(c: Option<Conn>, h: TcpHdr, bsize: nat): TcpHdr {
    if !Heard(c, h, bsize) || !Replies(Known(c), h) then h
    else if Returned(Known(c), h) > 0 then Turned(Reply(Known(c), h))
    else Reply(Known(c), h)
  }

  /** A reply of ret bytes stands at the front of the buffer, and the rest is as it was. */
  ghost predicate Sent(o: Order, local: Addr, remote: Addr, hdr: TcpHdr, was: seq<Byte>, now: seq<Byte>, ret: int) {
    && |now| == |was| && 20 <= ret <= |was|
    && now[..ret] == TcpHeader.Segment(o, local, remote, hdr, was[20..ret]) && now[ret..] == was[ret..]
  }

  /** The peer reads a sent reply back as it was meant, and its checksum over it is 0. */
  lemma SentVerifies(o: Order, local: Addr, remote: Addr, hdr: TcpHdr, was: seq<Byte>, now: seq<Byte>, ret: int)
    requires Sent(o, local, remote, hdr, was, now, ret)
    ensures TcpParse(o, now[..ret]) == hdr.(csum := TcpParse(o, now[..ret]).csum)
    ensures Sum16(o, PseudoHeader(Net32(local), Net32(remote), ret) + now[..ret]) == 0
  {
    hide TcpHeader.Segment, Sum16, TcpParse;
    SegmentVerifies(o, local, remote, hdr, was[20..ret]);
  }

  /** A reply, byte for byte: the segment that came, of which it keeps the header length, options and data, with the
    ports exchanged, numbers of its own, the ACK bit set or cleared and a checksum that verifies. */
  ghost predicate WireReply(state: State, sendNext: Seqno, local: Addr, remote: Addr,
      was: seq<Byte>, now: seq<Byte>, ret: int)
    requires |was| == |now| >= 20
  {
    && ret == 4 * (was[12] / 16) && 20 <= ret <= |now|
    && now[0] == was[2] && now[1] == was[3] && now[2] == was[0] && now[3] == was[1]
    && Quad(now[4], now[5], now[6], now[7]) == (if state == LISTEN then 0 else sendNext)
    && Quad(now[8], now[9], now[10], now[11]) == (
         if state == SYN_RCVD then Quad(was[4], was[5], was[6], was[7])
         else (Quad(was[4], was[5], was[6], was[7]) + 1) % 0x1_0000_0000)
    && now[12] == was[12] && now[13] % 16 == was[13] % 16 && now[13] / 32 == was[13] / 32
    && (now[13] / 16 % 2 == 1 <==> state != SYN_RCVD)
    && now[14] == was[14] && now[15] == was[15] && now[18..] == was[18..]
    && (local / 65536 + local % 65536 + remote / 65536 + remote % 65536 + 6 + ret + ByPlace(now[..ret], 256, 1))
       % 65535 == 0
  }

  lemma ReplyOnWire(o: Order, local: Addr, remote: Addr, c: Conn, was: seq<Byte>, now: seq<Byte>, ret: int)
    requires |was| == |now| >= 20
    requires var h := TcpParse(o, was);
      ret == HdrSize(h) > 0 && Sent(o, local, remote, Turned(Reply(c, h)), was, now, ret)
    ensures WireReply(c.state, c.sendNext, local, remote, was, now, ret)
  {
    hide TcpParse, Sent, Reply, HdrSize, ByPlace, Quad, Pair;
    var h := TcpParse(o, was);
    var r := Reply(c, h);
    TcpParseBytes(o, was);
    SentBytes(o, local, remote, Turned(r), was, now, ret);
    ReplyFields(c, h);
    PairSame(now[0], now[1], was[2], was[3]);
    PairSame(now[2], now[3], was[0], was[1]);
    PairSame(now[14], now[15], was[14], was[15]);
    PairSame(now[18], now[19], was[18], was[19]);
    SameTail(was, now);
    ReplyFlagBytes(r.flags, h.flags, now[12], now[13], was[12], was[13]);
    SentVerifies(o, local, remote, Turned(r), was, now, ret);
    SegmentOnWire(o, local, remote, now[..ret]);
  }

  lemma SentBytes(o: Order, local: Addr, remote: Addr, hdr: TcpHdr, was: seq<Byte>, now: seq<Byte>, ret: int)
    requires Sent(o, local, remote, hdr, was, now, ret)
    ensures 20 <= ret <= |now| == |was| && now[20..] == was[20..]
    ensures exists csum: Word :: TcpInBytes(o, now, hdr.(csum := csum))
  {
    hide TcpFields, SegmentSum;
    var csum := SegmentSum(o, local, remote, hdr, was[20..ret]);
    var b := TcpFields(o, hdr.(csum := csum));
    TcpFieldBytes(o, hdr.(csum := csum));
    assert now[..ret] == b + was[20..ret];
    assert forall i | 0 <= i < 20 :: now[i] == now[..ret][i] == b[i];
    forall i | 20 <= i < |now| ensures now[i] == was[i] {
      assert i < ret ==> now[i] == now[..ret][i] == was[20..ret][i - 20];
      assert i >= ret ==> now[i] == now[ret..][i - ret] == was[ret..][i - ret];
    }
  }

  /** Only the two numbers and the ACK bit differ from the segment that came. */
  lemma ReplyFields(c: Conn, h: TcpHdr)
    ensures var r := Reply(c, h);
      && r == h.(seqno := r.seqno, ackNum := r.ackNum, flags := r.flags)
      && r.seqno == (if c.state == LISTEN then 0 else c.sendNext)
      && r.ackNum == (if c.state == SYN_RCVD then h.seqno else (h.seqno + 1) % 0x1_0000_0000)
      && r.flags % 16 == h.flags % 16 && r.flags / 32 == h.flags / 32
      && (r.flags / 16 % 2 == 1 <==> c.state != SYN_RCVD)
  {
    hide WithAck, WithoutAck;
    OtherFlags(h);
  }

  lemma SameTail(was: seq<Byte>, now: seq<Byte>)
    requires |was| == |now| >= 20 && now[20..] == was[20..] && now[18] == was[18] && now[19] == was[19]
    ensures now[18..] == was[18..]
  {
    assert now[18..] == [now[18], now[19]] + now[20..] && was[18..] == [was[18], was[19]] + was[20..];
  }

  lemma ReplyFlagBytes(r: Word, f: Word, r0: Byte, r1: Byte, b0: Byte, b1: Byte)
    requires r == Pair(r0, r1) && f == Pair(b0, b1) && r % 16 == f % 16 && r / 32 == f / 32
    ensures r0 == b0 && r1 % 16 == b1 % 16 && r1 / 32 == b1 / 32 && r / 16 % 2 == r1 / 16 % 2
  {
    FlagsByte(r0, r1);
    FlagsByte(b0, b1);
    By32(r, 8 * r0 + r1 / 32, r1 % 32);
    By32(f, 8 * b0 + b1 / 32, b1 % 32);
  }

  // the part of tcp_input behind its checks
  method Respond(o: Order, remote: Addr, local: Addr, conn: Tcb, h: TcpHdr, payload: array<Byte>)
      returns (ret: int, hdr: TcpHdr)
    requires 60 <= payload.Length
    modifies conn, payload
    ensures var c := old(conn.View());
      && conn.View() == Moved(c, h) && ret == Returned(c, h)
      && hdr == (if !Replies(c, h) then h else if ret > 0 then Turned(Reply(c, h)) else Reply(c, h))
    ensures if ret > 0 then Sent(o, local, remote, hdr, old(payload[..]), payload[..], ret)
      else payload[..] == old(payload[..])
    ensures ret > 0 ==> ret == 4 * (h.flags / 4096)
  {
    hide TcpHeader.Segment, Returned, Reply, Replies, Moved;
    ReturnedSize(conn.View(), h);
    var seg := new Segment(h);
    ret := conn.TcpFsm(seg);
    if ret > 0 {
      seg.hdr := seg.hdr.(sport := h.dport);
      seg.hdr := seg.hdr.(dport := h.sport);
      ghost var was := payload[..];
      TcpHton(o, local, remote, seg.hdr, payload, ret);
      assert was[20..ret] == old(payload[20..ret]) && was[ret..] == old(payload[ret..]);
      assert payload[..][..ret] == payload[..ret] && payload[..][ret..] == payload[ret..];
    }
    hdr := seg.hdr;
  }

  lemma ReturnedIsSize(c: Conn, h: TcpHdr)
    ensures Returned(c, h) > 0 ==> Replies(c, h) && Returned(c, h) == HdrSize(h)
  {
  }

  lemma ReturnedSize(c: Conn, h: TcpHdr)
    ensures Returned(c, h) > 0 ==> Replies(c, h) && 20 <= Returned(c, h) <= 60
    ensures Reply(c, h).sport == h.sport && Reply(c, h).dport == h.dport
  {
  }

  // tcp_input for one pair of addresses and ports, whose control block the map holds or not.  The segment arrives from
  // remote in the first bsize bytes of payload, a buffer with room for any header; hdr is its header in host form.
  method TcpInput(o: Order, remote: Addr, local: Addr, conn: Tcb?, payload: array<Byte>, bsize: nat)
      returns (conn': Tcb?, ret: int, hdr: TcpHdr)
    requires 60 <= payload.Length && bsize <= payload.Length
    modifies conn, payload
    ensures conn != null ==> conn' == conn
    ensures var (c, h) := (old(ViewOf(conn)), TcpParse(o, old(payload[..])));
      && hdr == Left(c, h, bsize)
      && (if Heard(c, h, bsize) then
            conn' != null && conn'.View() == Moved(Known(c), h) && ret == Returned(Known(c), h)
          else ViewOf(conn') == c && ret == if bsize < 20 then -74 else -22)
    ensures if ret > 0 then Sent(o, local, remote, hdr, old(payload[..]), payload[..], ret)
      else payload[..] == old(payload[..])
    ensures var c := old(Known(ViewOf(conn)));
      ret > 0 ==> WireReply(c.state, c.sendNext, local, remote, old(payload[..]), payload[..], ret)
  {
    hide Sent, Returned, Reply, Replies, Moved, TcpParse, Syn, WireReply;
    ghost var was, c := payload[..], Known(ViewOf(conn));
    conn' := conn;
    hdr := TcpParse(o, payload[..]);
    if bsize < 20 {
      return conn', -EBADMSG, hdr;
    }
    if conn == null && Syn(hdr) {
      conn' := new Tcb();
    } else if conn == null || Syn(hdr) || HdrSize(hdr) < 0 {
      return conn', -EINVAL, hdr;
    }
    ReturnedIsSize(c, hdr);
    ret, hdr := Respond(o, remote, local, conn', hdr, payload);
    if ret > 0 {
      ReplyOnWire(o, local, remote, c, was, payload[..], ret);
    }
  }
}
