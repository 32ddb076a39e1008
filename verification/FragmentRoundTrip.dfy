/** Packets from ip_send_fragments fed to ip_fragment_input (src/ip.c:225-273, src/ip_fragment.c:141-195). */
module FragmentRoundTrip {
  import opened Checksum
  import opened IpHeader
  import opened IpSend
  import opened Reassembly
  import Runs = ReassemblyRuns
  import AnySize = ReassemblyAnySize

  /** What ip_input hands to ip_fragment_input for a packet. */
  function Arrive(o: Order, p: seq<Byte>): Runs.Arrival
    requires |p| >= 20 && Hlen(Parse(o, p)) <= |p|
  {
    (Parse(o, p), p[Hlen(Parse(o, p))..])
  }

  predicate Sendable(h: IpHdr, buf: seq<Byte>, data: seq<Byte>) {
    20 <= Hlen(h) <= |buf| && Hlen(h) + |data| < 65536
  }

  ghost function Arrivals(o: Order, h: IpHdr, buf: seq<Byte>, fs: seq<Fragment>, data: seq<Byte>)
    : (xs: seq<Runs.Arrival>)
    requires Sendable(h, buf, data) && forall i | 0 <= i < |fs| :: IsPiece(fs[i], data, Hlen(h))
    ensures |xs| == |fs|
  {
    if fs == [] then []
    else
      assert IsPiece(fs[0], data, Hlen(h));
      PacketParses(o, h, buf, fs[0]);
      [Arrive(o, Packet(o, h, buf, fs[0]))] + Arrivals(o, h, buf, fs[1..], data)
  }

  lemma ArrivalAt(o: Order, h: IpHdr, buf: seq<Byte>, fs: seq<Fragment>, data: seq<Byte>, i: nat)
    requires Sendable(h, buf, data) && forall j | 0 <= j < |fs| :: IsPiece(fs[j], data, Hlen(h))
    requires i < |fs|
    ensures var x, f := Arrivals(o, h, buf, fs, data)[i], fs[i];
      && Offset(x.0) == f.off && x.1 == f.data && MoreFragments(x.0) == f.more
      && FragmentOk(x.0, x.1) && IdOf(x.0) == IdOf(h)
  {
    hide Packet, Parse;
    PacketParses(o, h, buf, fs[0]);
    if i > 0 {
      ArrivalAt(o, h, buf, fs[1..], data, i - 1);
    }
  }

  /** They are the packets that ip_send_fragments emits, read by the receiver one after the other. */
  lemma {:induction false} ArrivalsAreSent(o: Order, h: IpHdr, buf: seq<Byte>, fs: seq<Fragment>, data: seq<Byte>,
      i: nat)
    requires Sendable(h, buf, data) && forall j | 0 <= j < |fs| :: IsPiece(fs[j], data, Hlen(h))
    requires i < |fs|
    ensures forall j | 0 <= j < |fs| :: Hlen(h) + fs[j].off + |fs[j].data| < 65536
    ensures var p := Packets(o, h, buf, fs)[i];
      |p| >= 20 && Hlen(Parse(o, p)) <= |p| && Arrivals(o, h, buf, fs, data)[i] == Arrive(o, p)
  {
    hide Packet, Parse;
    forall j | 0 <= j < |fs| ensures Hlen(h) + fs[j].off + |fs[j].data| < 65536 {
      assert IsPiece(fs[j], data, Hlen(h));
    }
    PacketParses(o, h, buf, fs[0]);
    if i > 0 {
      ArrivalsAreSent(o, h, buf, fs[1..], data, i - 1);
    }
  }

  /** Each fragment begins where the one before it ends. */
  ghost predicate Gapless(xs: seq<Runs.Arrival>) {
    && (xs != [] ==> Offset(xs[0].0) == 0)
    && forall i | 0 <= i < |xs| - 1 :: Offset(xs[i + 1].0) == Offset(xs[i].0) + |xs[i].1|
  }

  function EndOf(xs: seq<Runs.Arrival>): nat {
    if xs == [] then 0 else Offset(xs[|xs| - 1].0) + |xs[|xs| - 1].1|
  }

  /** Such fragments cover the data up to where the last one ends. */
  lemma {:induction false} CoveredSoFar(xs: seq<Runs.Arrival>)
    requires Gapless(xs)
    ensures Runs.Covered(xs) == BlocksOf(0, EndOf(xs))
  {
    hide BlocksOf, Gapless, Offset;
    if xs == [] {
      NoBlocks();
    } else {
      var before, x := xs[..|xs| - 1], xs[|xs| - 1];
      GaplessBefore(xs);
      CoveredSoFar(before);
      Extend(Offset(x.0), |x.1|);
    }
  }

  lemma GaplessBefore(xs: seq<Runs.Arrival>)
    requires Gapless(xs) && xs != []
    ensures Gapless(xs[..|xs| - 1]) && EndOf(xs[..|xs| - 1]) == Offset(xs[|xs| - 1].0)
    ensures Offset(xs[|xs| - 1].0) % 8 == 0
  {
  }

  lemma NoBlocks()
    ensures BlocksOf(0, 0) == {}
  {
  }

  lemma Extend(off: nat, n: nat)
    requires off % 8 == 0
    ensures BlocksOf(0, off) + BlocksOf(off, n) == BlocksOf(0, off + n)
  {
    forall i: nat ensures i in BlocksOf(0, off + n) <==> i in BlocksOf(0, off) || i in BlocksOf(off, n) {
      assert IsBlock(i, 0, off + n) <==> IsBlock(i, 0, off) || IsBlock(i, off, n);
    }
  }

  /** Every datagram of two or more fragments, sent and received in order, is complete at its last packet and not
    before, with the data that was sent: whatever its size, and whatever the buffer held before. */
  lemma RoundTrip(m: Machine, o: Order, h: IpHdr, buf: seq<Byte>, data: seq<Byte>)
    requires Inv(m) && IdOf(h) !in m.tree && HasRoom(m, IdOf(h)) && Sendable(h, buf, data)
    requires |Cut(data, Hlen(h), 0)| >= 2
    ensures var fs := Cut(data, Hlen(h), 0);
      && (forall i | 0 <= i < |fs| :: IsPiece(fs[i], data, Hlen(h)))
      && var xs := Arrivals(o, h, buf, fs, data);
      && Runs.AllOk(xs)
      && var os := Runs.OutcomesOf(m, xs, IdOf(h));
      && |os| == |fs| && (forall i | 0 <= i < |fs| - 1 :: os[i] == Held) && os[|fs| - 1] == Completed(data)
  {
    SentInOrder(m, o, h, buf, data);
    hide Cut, Arrivals, HasRoom, Inv, Runs.Done, Runs.Pieces, Runs.OutcomesOf, Runs.AllOk, AnySize.DoneWith,
      AnySize.StaleIn;
    var xs := Arrivals(o, h, buf, Cut(data, Hlen(h), 0), data);
    AnySize.LeavesMark(m, xs, IdOf(h), data);
  }

  /** What the packets of a datagram are to the receiver: its pieces, done at the last one and not before. */
  lemma SentInOrder(m: Machine, o: Order, h: IpHdr, buf: seq<Byte>, data: seq<Byte>)
    requires Inv(m) && HasRoom(m, IdOf(h)) && IdOf(h) !in m.tree && Sendable(h, buf, data)
    requires |Cut(data, Hlen(h), 0)| >= 2
    ensures var fs := Cut(data, Hlen(h), 0);
      && (forall i | 0 <= i < |fs| :: IsPiece(fs[i], data, Hlen(h)))
      && var xs := Arrivals(o, h, buf, fs, data);
      && data != [] && Runs.AllOk(xs) && AnySize.AllOf(xs, IdOf(h)) && Runs.Pieces(xs, data) && Runs.Done(xs, data)
      && forall n | 0 < n < |xs| ::
        !AnySize.DoneWith(xs[..n], data, AnySize.StaleIn(m.buffers[FirstFree(m.buffers, 0)]))
  {
    hide Cut, Packet, Parse, IsCut, Contiguous, Runs.Done, Runs.Pieces, Runs.FinalSince, Runs.Covered, BlocksOf;
    var fs := Cut(data, Hlen(h), 0);
    CutIsFaithful(data, Hlen(h), 0);
    CutPieces(fs, data, Hlen(h));
    ArrivalsInOrder(o, h, buf, fs, data);
    InOrder(Arrivals(o, h, buf, fs, data), data);
  }

  /** What the receiver makes of packets one after the other. */
  ghost function Received(o: Order, ps: seq<seq<Byte>>): seq<Runs.Arrival>
    requires forall i | 0 <= i < |ps| :: |ps[i]| >= 20 && Hlen(Parse(o, ps[i])) <= |ps[i]|
  {
    seq(|ps|, i requires 0 <= i < |ps| => Arrive(o, ps[i]))
  }

  /** From buffer to buffer: buf[..bsize] is a packet for ip_send_fragments, ps are the packets that
    IpSend.IpSendFragments hands to ether_send when none fails, and they bring the payload to the receiver. */
  lemma EndToEnd(m: Machine, o: Order, buf: seq<Byte>, bsize: nat, ps: seq<seq<Byte>>)
    requires 20 <= |buf| && bsize <= |buf| && bsize <= 65535 && 20 <= Hlen(Parse(o, buf)) <= bsize
    requires ps == From(o, Parse(o, buf), buf, bsize, 0) && |ps| >= 2
    requires Inv(m) && IdOf(Parse(o, buf)) !in m.tree && HasRoom(m, IdOf(Parse(o, buf)))
    ensures forall i | 0 <= i < |ps| :: |ps[i]| >= 20 && Hlen(Parse(o, ps[i])) <= |ps[i]|
    ensures var h, xs := Parse(o, buf), Received(o, ps);
      && Runs.AllOk(xs)
      && var os := Runs.OutcomesOf(m, xs, IdOf(h));
      && |os| == |ps| && (forall i | 0 <= i < |ps| - 1 :: os[i] == Held)
      && os[|ps| - 1] == Completed(buf[Hlen(h)..bsize])
  {
    hide Cut, Packets, Packet, Parse, Input, HasRoom, Inv, Runs.OutcomesOf, Runs.AllOk, IsPiece, Arrivals, Arrive;
    var h := Parse(o, buf);
    var data := buf[Hlen(h)..bsize];
    var fs := Cut(data, Hlen(h), 0);
    CutIsFaithful(data, Hlen(h), 0);
    CutPieces(fs, data, Hlen(h));
    RoundTrip(m, o, h, buf, data);
    forall i | 0 <= i < |ps|
      ensures |ps[i]| >= 20 && Hlen(Parse(o, ps[i])) <= |ps[i]| && Arrivals(o, h, buf, fs, data)[i] == Arrive(o, ps[i])
    {
      ArrivalsAreSent(o, h, buf, fs, data, i);
    }
    assert Received(o, ps) == Arrivals(o, h, buf, fs, data);
  }

  lemma CutPieces(fs: seq<Fragment>, data: seq<Byte>, hlen: nat)
    requires IsCut(fs, data, hlen)
    ensures forall i | 0 <= i < |fs| :: IsPiece(fs[i], data, hlen)
  {
  }

  /** The arrivals inherit the order of the fragments. */
  lemma ArrivalsInOrder(o: Order, h: IpHdr, buf: seq<Byte>, fs: seq<Fragment>, data: seq<Byte>)
    requires Sendable(h, buf, data) && forall i | 0 <= i < |fs| :: IsPiece(fs[i], data, Hlen(h))
    requires fs != [] && fs[0].off == 0 && IsCut(fs, data, Hlen(h))
    ensures var xs := Arrivals(o, h, buf, fs, data);
      Contiguous(xs, data) && Runs.AllOk(xs) && AnySize.AllOf(xs, IdOf(h))
  {
    hide Packet, Parse;
    var xs := Arrivals(o, h, buf, fs, data);
    forall i | 0 <= i < |xs|
      ensures Offset(xs[i].0) == fs[i].off && xs[i].1 == fs[i].data && MoreFragments(xs[i].0) == fs[i].more
      ensures FragmentOk(xs[i].0, xs[i].1) && IdOf(xs[i].0) == IdOf(h)
    {
      ArrivalAt(o, h, buf, fs, data, i);
    }
  }

  /** The arrivals begin at 0 and follow each other without gaps up to the final one. */
  ghost predicate Contiguous(xs: seq<Runs.Arrival>, d: seq<Byte>) {
    && xs != [] && Gapless(xs)
    && forall i | 0 <= i < |xs| ::
      && Offset(xs[i].0) + |xs[i].1| <= |d| && xs[i].1 == d[Offset(xs[i].0)..Offset(xs[i].0) + |xs[i].1|]
      && (MoreFragments(xs[i].0) <==> i < |xs| - 1)
      && (MoreFragments(xs[i].0) <==> Offset(xs[i].0) + |xs[i].1| < |d|)
      && (MoreFragments(xs[i].0) ==> 0 < |xs[i].1| && |xs[i].1| % 8 == 0)
  }

  /** Pieces in order, without gaps: not done before the last, and done then. */
  lemma InOrder(xs: seq<Runs.Arrival>, d: seq<Byte>)
    requires |xs| >= 2 && Contiguous(xs, d)
    ensures Runs.Pieces(xs, d) && d != [] && Runs.Done(xs, d)
    ensures forall n | 0 < n < |xs| :: !Runs.FinalSince(xs[..n])
  {
    Rising(xs, |xs| - 1);
    forall i | 0 <= i < |xs| ensures Runs.PieceOf(xs[i], d) {
      Rising(xs, i);
    }
    CoveredSoFar(xs);
    forall n | 0 < n < |xs| ensures !Runs.FinalSince(xs[..n]) {
      NoFinal(xs[..n]);
    }
  }

  lemma Rising(xs: seq<Runs.Arrival>, i: nat)
    requires i < |xs|
    requires forall j | 0 <= j < |xs| - 1 :: Offset(xs[j + 1].0) == Offset(xs[j].0) + |xs[j].1| && |xs[j].1| > 0
    ensures i > 0 ==> Offset(xs[i].0) > 0
  {
    if i > 0 {
      assert Offset(xs[i - 1 + 1].0) == Offset(xs[i - 1].0) + |xs[i - 1].1|;
    }
  }

  lemma NoFinal(xs: seq<Runs.Arrival>)
    requires forall i | 0 <= i < |xs| :: MoreFragments(xs[i].0)
    ensures !Runs.FinalSince(xs)
  {
  }
}
