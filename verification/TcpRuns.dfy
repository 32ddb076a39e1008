/** Runs of one connection: any segments whatever between one pair of addresses and ports. */
module TcpRuns {
  import opened Checksum
  import opened IpHeader
  import opened TcpHeader
  import opened TcpConn

  /** A segment and its length. */
  datatype Input = Input(h: TcpHdr, bsize: nat)

  /** The connection, and the replies that were written so far. */
  datatype System = System(conn: Option<Conn>, replies: seq<TcpHdr>)

  /** What tcp_input does. */
  function Step(s: System, e: Input): System {
    var c := Known(s.conn);
    if !Heard(s.conn, e.h, e.bsize) then s
    else System(Some(Moved(c, e.h)), if Replies(c, e.h) then s.replies + [Reply(c, e.h)] else s.replies)
  }

  function Run(events: seq<Input>): System {
    if events == [] then System(None, []) else Step(Run(events[..|events| - 1]), events[|events| - 1])
  }

  function Last(s: System): TcpHdr
    requires s.replies != []
  {
    s.replies[|s.replies| - 1]
  }

  /** The segment acknowledges the latest reply, and begins where that reply says. */
  predicate AnswersLast(s: System, h: TcpHdr) {
    s.replies != [] && Ack(h) && h.seqno == Last(s).ackNum && h.ackNum == Next(Last(s).seqno)
  }

  /** How far a connection has come. */
  function Progress(s: System): (r: nat)
    ensures r <= 4
  {
    if s.conn.None? then 0
    else match s.conn.value.state
      case SYN_RCVD => 1
      case ESTABLISHED => 2
      case LAST_ACK => 3
      case CLOSED => 4
      case _ => 0
  }

  ghost predicate Inv(s: System) {
    if s.conn.None? then s.replies == []
    else
      && Progress(s) > 0
      && s.replies != []
      && s.conn.value.recvNext == Last(s).ackNum
      && s.conn.value.sendNext == Next(Last(s).seqno)
      && (forall k | 0 <= k < |s.replies| :: s.replies[k].seqno == k % 0x1_0000_0000)
      && (forall k | 0 <= k < |s.replies| :: Syn(s.replies[k]) <==> k == 0)
      && (forall k | 0 < k < |s.replies| :: Ack(s.replies[k]) <==> k == |s.replies| - 1 && Progress(s) >= 3)
      && Ack(s.replies[0])
      && (Progress(s) >= 3 ==> |s.replies| >= 2 && Fin(Last(s)))
  }

  lemma StepKeeps(s: System, e: Input)
    requires Inv(s)
    ensures Inv(Step(s, e))
  {
    hide Fin, Syn, Ack, Doff, HdrSize, Reply;
    ReplyOf(Known(s.conn), e.h);
    if s.replies != [] {
      NextCount(|s.replies| - 1);
    }
  }

  lemma ReplyOf(c: Conn, h: TcpHdr)
    ensures var r := Reply(c, h);
      && Fin(r) == Fin(h) && Syn(r) == Syn(h)
      && (Ack(r) <==> c.state != SYN_RCVD)
      && r.seqno == if c.state == LISTEN then 0 else c.sendNext
  {
  }

  lemma NextCount(k: nat)
    ensures Next(k % 0x1_0000_0000) == (k + 1) % 0x1_0000_0000
  {
  }

  lemma {:induction false} RunKeeps(events: seq<Input>)
    ensures Inv(Run(events))
  {
    hide Inv, Step;
    if events == [] {
      NothingYet();
    } else {
      RunKeeps(events[..|events| - 1]);
      StepKeeps(Run(events[..|events| - 1]), events[|events| - 1]);
    }
  }

  lemma NothingYet()
    ensures Inv(Run([]))
  {
  }

  /** The numbers of the connection are those of the latest reply, and replies are numbered 0, 1, 2, ... modulo 2^32. */
  lemma NumbersFollowReplies(events: seq<Input>)
    ensures var s := Run(events);
      s.conn.Some? ==>
        && s.replies != []
        && s.conn.value.recvNext == Last(s).ackNum
        && s.conn.value.sendNext == Next(Last(s).seqno) == |s.replies| % 0x1_0000_0000
  {
    RunKeeps(events);
    var s := Run(events);
    if s.conn.Some? {
      NextCount(|s.replies| - 1);
    }
  }

  /** Only the first reply is a SYN, and only the first and the one that answers a FIN acknowledge anything: those in
    between, to segments that did not fit the handshake, go without ACK. */
  lemma ReplyFlags(events: seq<Input>, k: nat)
    requires k < |Run(events).replies|
    ensures var s := Run(events);
      && (Syn(s.replies[k]) <==> k == 0)
      && (Ack(s.replies[k]) <==> k == 0 || (k == |s.replies| - 1 && Progress(s) >= 3))
  {
    RunKeeps(events);
  }

  /** The stored state only moves forward, one state at a time. */
  lemma Forward(events: seq<Input>, e: Input)
    ensures Progress(Run(events)) <= Progress(Run(events + [e])) <= Progress(Run(events)) + 1
  {
    RunKeeps(events);
    assert (events + [e])[..|events|] == events;
  }

  /** A connection is made by a SYN alone, established by nothing but a segment that acknowledges the latest reply,
    left by a FIN and closed by an ACK. */
  lemma MovesWhen(events: seq<Input>, e: Input)
    ensures var s := Run(events);
      Progress(Run(events + [e])) == Progress(s) + 1 <==>
        && e.bsize >= 20 && Progress(s) < 4
        && (Progress(s) > 0 ==> !Syn(e.h) && HdrSize(e.h) > 0)
        && (Progress(s) == 0 ==> Syn(e.h))
        && (Progress(s) == 1 ==> AnswersLast(s, e.h))
        && (Progress(s) == 2 ==> Fin(e.h))
        && (Progress(s) == 3 ==> Ack(e.h))
  {
    hide Fin, Syn, Ack, Doff, WithAck, WithoutAck;
    RunKeeps(events);
    assert (events + [e])[..|events|] == events;
  }

  /** Which segments are answered, and with what: a SYN that begins a connection, one that does not fit the handshake,
    and a FIN.  The answer is the segment itself but for its numbers and the ACK bit. */
  lemma RepliedWhen(events: seq<Input>, e: Input)
    ensures var s, s' := Run(events), Run(events + [e]);
      && s.replies <= s'.replies && |s'.replies| <= |s.replies| + 1
      && (|s'.replies| == |s.replies| + 1 <==>
            && e.bsize >= 20 && Progress(s) < 3
            && (Progress(s) == 0 ==> Syn(e.h))
            && (Progress(s) > 0 ==> !Syn(e.h) && HdrSize(e.h) > 0)
            && (Progress(s) == 1 ==> !AnswersLast(s, e.h))
            && (Progress(s) == 2 ==> Fin(e.h)))
      && (|s'.replies| == |s.replies| + 1 ==>
            var r, h, n := Last(s'), e.h, |s.replies|;
            && r == h.(seqno := n % 0x1_0000_0000, ackNum := r.ackNum, flags := r.flags)
            && r.ackNum == (if Progress(s) == 1 then h.seqno else (h.seqno + 1) % 0x1_0000_0000)
            && r.flags % 16 == h.flags % 16 && r.flags / 32 == h.flags / 32
            && (r.flags / 16 % 2 == 1 <==> Progress(s) != 1))
  {
    hide Fin, Syn, Ack, Doff, WithAck, WithoutAck, Reply;
    RunKeeps(events);
    NumbersFollowReplies(events);
    assert (events + [e])[..|events|] == events;
    ReplyFields(Known(Run(events).conn), e.h);
  }

  /** Where an established connection comes from: some segment acknowledged the latest reply, and some SYN began it. */
  lemma {:induction false} EstablishedBy(events: seq<Input>) returns (i: nat, j: nat)
    requires Progress(Run(events)) >= 2
    ensures i < j < |events|
    ensures var s := Run(events[..i]);
      s == System(None, []) && events[i].bsize >= 20 && Syn(events[i].h)
    ensures var s := Run(events[..j]);
      Progress(s) == 1 && events[j].bsize >= 20 && AnswersLast(s, events[j].h)
  {
    var before, e := events[..|events| - 1], events[|events| - 1];
    assert events == before + [e];
    Forward(before, e);
    if Progress(Run(before)) >= 2 {
      i, j := EstablishedBy(before);
      assert events[..i] == before[..i] && events[..j] == before[..j];
    } else {
      MovesWhen(before, e);
      j := |before|;
      i := BegunBy(before);
      assert events[..i] == before[..i];
      RunKeeps(before);
    }
  }

  lemma {:induction false} BegunBy(events: seq<Input>) returns (i: nat)
    requires Progress(Run(events)) >= 1
    ensures i < |events| && events[i].bsize >= 20 && Syn(events[i].h) && Run(events[..i]) == System(None, [])
  {
    var before, e := events[..|events| - 1], events[|events| - 1];
    assert events == before + [e];
    RunKeeps(before);
    if Progress(Run(before)) >= 1 {
      i := BegunBy(before);
      assert events[..i] == before[..i];
    } else {
      MovesWhen(before, e);
      Forward(before, e);
      i := |before|;
    }
  }

  /** A closed connection answers nothing and is never opened again: the map keeps it. */
  lemma ClosedForGood(events: seq<Input>, more: seq<Input>)
    requires Progress(Run(events)) == 4
    ensures Run(events + more) == Run(events)
  {
    if more == [] {
      assert events + more == events;
    } else {
      var before := more[..|more| - 1];
      ClosedForGood(events, before);
      assert (events + more)[..|events + more| - 1] == events + before;
      RunKeeps(events);
    }
  }

  /** The three-way handshake and the passive close, for any sequence numbers of the peer. */
  lemma Handshake(syn: Input, ack: Input, fin: Input, last: Input)
    requires forall e | e in [syn, ack, fin, last] :: e.bsize >= 20 && Doff(e.h) >= 5
    requires Syn(syn.h) && !Syn(ack.h) && !Syn(fin.h) && !Syn(last.h)
    requires Ack(ack.h) && ack.h.seqno == Next(syn.h.seqno) && ack.h.ackNum == 1
    requires Fin(fin.h) && Ack(last.h)
    ensures Run([syn]).conn == Some(Conn(SYN_RCVD, Next(syn.h.seqno), 1))
    ensures Run([syn, ack]).conn == Some(Conn(ESTABLISHED, Next(syn.h.seqno), 1))
    ensures Run([syn, ack, fin]).conn == Some(Conn(LAST_ACK, Next(fin.h.seqno), 2))
    ensures Progress(Run([syn, ack, fin, last])) == 4
    ensures var replies := Run([syn, ack, fin, last]).replies;
      && |replies| == 2
      && Ack(replies[0]) && Syn(replies[0]) && replies[0].seqno == 0 && replies[0].ackNum == Next(syn.h.seqno)
      && Ack(replies[1]) && Fin(replies[1]) && replies[1].seqno == 1 && replies[1].ackNum == Next(fin.h.seqno)
  {
    var all := [syn, ack, fin, last];
    assert syn in all && ack in all && fin in all && last in all;
    assert [syn][..0] == [] && [syn, ack][..1] == [syn];
    assert [syn, ack, fin][..2] == [syn, ack] && all[..3] == [syn, ack, fin];
  }

  /** A SYN from port 5000 to port 80, and a segment that acknowledges 7 where 1 was sent. */
  const OPENING: Input := Input(TcpHdr(5000, 80, 100, 0, 0x5002, 1024, 0, 0), 20)
  const MISFIT: Input := Input(TcpHdr(5000, 80, 101, 7, 0x5010, 1024, 0, 0), 20)

  /** The answer to the second has no ACK and uses up a sequence number, and the connection goes on in SYN_RCVD. */
  lemma MisfitAnswered()
    ensures var s := Run([OPENING, MISFIT]);
      && |s.replies| == 2 && Ack(s.replies[0]) && !Ack(s.replies[1]) && s.replies[1].seqno == 1
      && s.conn == Some(Conn(SYN_RCVD, 101, 2))
  {
    assert [OPENING, MISFIT][..1] == [OPENING] && [OPENING][..0] == [];
    var s0, s1 := Run([]), Run([OPENING]);
    assert s1 == Step(s0, OPENING) && Run([OPENING, MISFIT]) == Step(s1, MISFIT);
    assert Syn(OPENING.h) && !Syn(MISFIT.h) && Ack(MISFIT.h) && Doff(MISFIT.h) == 5;
    assert s1.conn == Some(Conn(SYN_RCVD, 101, 1));
  }

  // ----- the code makes such runs

  /** tcp_input on the control block that the segments so far have left, if any: one more step of the run. */
  method Receive(o: Order, remote: Addr, local: Addr, conn: Tcb?, payload: array<Byte>, bsize: nat,
      ghost events: seq<Input>)
      returns (conn': Tcb?, ret: int, hdr: TcpHdr, ghost events': seq<Input>)
    requires 60 <= payload.Length && bsize <= payload.Length && ViewOf(conn) == Run(events).conn
    modifies conn, payload
    ensures events' == events + [Input(TcpParse(o, old(payload[..])), bsize)]
    ensures ViewOf(conn') == Run(events').conn
    ensures ret > 0 ==>
      && Run(events').replies != [] && hdr == Turned(Last(Run(events')))
      && Sent(o, local, remote, hdr, old(payload[..]), payload[..], ret)
  {
    hide Sent, TcpParse, Reply, Replies, Moved;
    events' := events + [Input(TcpParse(o, payload[..]), bsize)];
    assert events'[..|events|] == events;
    ReturnedSize(Known(ViewOf(conn)), TcpParse(o, payload[..]));
    conn', ret, hdr := TcpInput(o, remote, local, conn, payload, bsize);
  }
}
