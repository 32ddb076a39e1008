/** The queue of deferred packets (src/ip_defer.c). */
module IpDefer {
  import Checksum

  const DEFER_MAX: nat := 20
  const ETHER_ALEN: nat := 6
  const EMSGSIZE: int := 90
  const ENOBUFS: int := 105
  const EALREADY: int := 114

  type Bytes = seq<Checksum.Byte>

  datatype Packet = Packet(dst: nat, proto: nat, data: Bytes)

  datatype Slot = Slot(tries: int, dst: nat, proto: nat, bufSize: nat, buf: Bytes)

  /** What ip_send does with a packet: EHOSTUNREACH is the one failure that is told apart. */
  datatype Outcome = Taken | Failed | Unreachable

  /** What ip_send is given for a slot. */
  function Given(s: Slot): Packet
    requires s.bufSize <= |s.buf|
  {
    Packet(s.dst, s.proto, s.buf[..s.bufSize])
  }

  /** The packet that was put into a slot, as far as the slot tells; its length is not kept. */
  predicate Holds(s: Slot, p: Packet) {
    && s.dst == p.dst && s.proto == p.proto
    && |p.data| <= ETHER_ALEN == |s.buf| && s.buf[..|p.data|] == p.data
    && s.bufSize == 0
  }

  /** The rest of the queue after one run of the handler, and the places in it of the packets given to ip_send. */
  datatype Drained = Drained(rest: seq<Slot>, given: seq<nat>)

  /** One run over a queue whose first packet is number at; outs tells what ip_send makes of each. */
  function Drain(q: seq<Slot>, at: nat, outs: nat -> Outcome): Drained
    decreases |q|
  {
    if q == [] then Drained([], [])
    else if q[0].tries > 3 then Drain(q[1..], at + 1, outs)
    else if outs(at) == Unreachable then Drained([q[0].(tries := q[0].tries + 2)] + q[1..], [at])
    else
      var d := Drain(q[1..], at + 1, outs);
      d.(given := [at] + d.given)
  }

  /** The slots from the read index up to the write index. */
  function InUse(a: seq<Slot>, rd: nat, wr: nat): seq<Slot>
    requires |a| == DEFER_MAX && rd < DEFER_MAX && wr < DEFER_MAX
  {
    if rd <= wr then a[rd..wr] else a[rd..] + a[..wr]
  }

  lemma Enqueued(a: seq<Slot>, rd: nat, wr: nat, s: Slot)
    requires |a| == DEFER_MAX && rd < DEFER_MAX && wr < DEFER_MAX
    ensures |InUse(a, rd, wr)| == DEFER_MAX - 1 <==> (wr + 1) % DEFER_MAX == rd
    ensures (wr + 1) % DEFER_MAX != rd ==> InUse(a[wr := s], rd, (wr + 1) % DEFER_MAX) == InUse(a, rd, wr) + [s]
  {
    var b := a[wr := s];
    if wr + 1 < DEFER_MAX {
      assert (wr + 1) % DEFER_MAX == wr + 1;
      assert b[..wr + 1] == a[..wr] + [s];
      assert rd <= wr ==> b[rd..wr + 1] == a[rd..wr] + [s];
      assert wr < rd ==> b[rd..] == a[rd..];
    } else {
      assert (wr + 1) % DEFER_MAX == 0;
      assert b[rd..] == a[rd..wr] + [s];
    }
  }

  lemma Dequeued(a: seq<Slot>, rd: nat, wr: nat)
    requires |a| == DEFER_MAX && rd < DEFER_MAX && wr < DEFER_MAX && rd != wr
    ensures InUse(a, rd, wr) != [] && InUse(a, rd, wr)[0] == a[rd]
    ensures InUse(a, (rd + 1) % DEFER_MAX, wr) == InUse(a, rd, wr)[1..]
  {
    if rd + 1 < DEFER_MAX {
      assert (rd + 1) % DEFER_MAX == rd + 1;
      assert rd > wr ==> (a[rd..] + a[..wr])[1..] == a[rd + 1..] + a[..wr];
    } else {
      assert (rd + 1) % DEFER_MAX == 0;
      assert a[rd..] == [a[rd]];
    }
  }

  lemma HeadSet(a: seq<Slot>, rd: nat, wr: nat, s: Slot)
    requires |a| == DEFER_MAX && rd < DEFER_MAX && wr < DEFER_MAX && rd != wr
    ensures InUse(a, rd, wr) != [] && InUse(a[rd := s], rd, wr) == [s] + InUse(a, rd, wr)[1..]
  {
  }

  /** The packets sent are those in the given places of the queue. */
  ghost predicate SentAs(q: seq<Slot>, given: seq<nat>, sent: seq<Packet>) {
    && |sent| == |given|
    && forall i | 0 <= i < |given| ::
      given[i] < |q| && q[given[i]].bufSize <= |q[given[i]].buf| && sent[i] == Given(q[given[i]])
  }

  lemma SentNone(q: seq<Slot>)
    ensures SentAs(q, [], [])
  {
  }

  lemma SentOne(q: seq<Slot>, given: seq<nat>, sent: seq<Packet>, at: nat)
    requires SentAs(q, given, sent) && at < |q| && q[at].bufSize <= |q[at].buf|
    ensures SentAs(q, given + [at], sent + [Given(q[at])])
  {
  }

  lemma GivenJoins(given: seq<nat>, at: nat, more: seq<nat>)
    ensures given + ([at] + more) == (given + [at]) + more
    ensures given + [at] == (given + [at]) + []
  {
  }

  lemma DrainNone(at: nat, outs: nat -> Outcome)
    ensures Drain([], at, outs) == Drained([], [])
  {
  }

  lemma DrainOne(q: seq<Slot>, at: nat, outs: nat -> Outcome)
    requires at < |q|
    ensures var (d, e) := (Drain(q[at..], at, outs), Drain(q[at + 1..], at + 1, outs));
      if q[at].tries > 3 then d == e
      else if outs(at) == Unreachable then d == Drained([q[at].(tries := q[at].tries + 2)] + q[at + 1..], [at])
      else d == Drained(e.rest, [at] + e.given)
  {
    assert q[at..][1..] == q[at + 1..];
  }

  class DeferQueue {
    const queue: array<Slot>
    var qRd: nat
    var qWr: nat
    var inhibit: bool

    ghost predicate Valid()
      reads this`qRd, this`qWr, queue
    {
      && queue.Length == DEFER_MAX && qRd < DEFER_MAX && qWr < DEFER_MAX
      && forall i | 0 <= i < DEFER_MAX :: queue[i].bufSize == 0 && |queue[i].buf| == ETHER_ALEN
    }

    /** The slots in use, the oldest first. */
    ghost function Contents(): (s: seq<Slot>)
      requires Valid()
      reads this`qRd, this`qWr, queue
      ensures forall i | 0 <= i < |s| :: s[i].bufSize == 0 && |s[i].buf| == ETHER_ALEN
    {
      InUse(queue[..], qRd, qWr)
    }

    // static storage
    constructor ()
      ensures Valid() && fresh(queue) && Contents() == [] && !inhibit
    {
      queue := new Slot[DEFER_MAX](_ => Slot(0, 0, 0, 0, seq(ETHER_ALEN, _ => 0)));
      qRd, qWr, inhibit := 0, 0, false;
    }

    // ip_defer_push
    method Push(p: Packet) returns (ret: int)
      requires Valid()
      modifies this`qWr, queue
      ensures Valid()
      ensures ret == if inhibit then -114 else if |old(Contents())| == 19 then -105 else if |p.data| > 6 then -90 else 0
      ensures ret != 0 ==> Contents() == old(Contents())
      ensures ret == 0 ==> exists s: Slot :: s.tries == 0 && Holds(s, p) && Contents() == old(Contents()) + [s]
    {
      var next := (qWr + 1) % DEFER_MAX;
      Enqueued(queue[..], qRd, qWr, queue[qWr]);
      if inhibit {
        return -EALREADY;
      }
      if next == qRd {
        return -ENOBUFS;
      }
      if |p.data| > ETHER_ALEN {
        return -EMSGSIZE;
      }
      var slot := queue[qWr];
      var s := Slot(0, p.dst, p.proto, slot.bufSize, p.data + slot.buf[|p.data|..]);
      Enqueued(queue[..], qRd, qWr, s);
      assert queue[..][qWr := s] == queue[..qWr] + [s] + queue[qWr + 1..];
      queue[qWr] := s;
      qWr := next;
      assert Holds(s, p);
      return 0;
    }

    // ip_defer_drop
    method Drop()
      requires Valid()
      modifies this`qRd
      ensures Valid()
      ensures Contents() == if old(Contents()) == [] then [] else old(Contents())[1..]
    {
      if qRd == qWr {
        return;
      }
      Dequeued(queue[..], qRd, qWr);
      qRd := (qRd + 1) % DEFER_MAX;
    }

    // ip_defer_peek
    method Peek() returns (some: bool, ipd: Slot)
      requires Valid()
      ensures some <==> Contents() != []
      ensures some ==> ipd == Contents()[0] == queue[qRd]
    {
      if qRd == qWr {
        return false, queue[qRd];
      }
      Dequeued(queue[..], qRd, qWr);
      return true, queue[qRd];
    }

    // ipd->tries++
    method CountTry()
      requires Valid() && Contents() != []
      modifies queue
      ensures Valid()
      ensures var q := old(Contents()); Contents() == [q[0].(tries := q[0].tries + 1)] + q[1..]
    {
      ghost var was := queue[..];
      var ipd := queue[qRd].(tries := queue[qRd].tries + 1);
      Dequeued(was, qRd, qWr);
      HeadSet(was, qRd, qWr, ipd);
      queue[qRd] := ipd;
      assert queue[..] == was[qRd := ipd];
    }

    // what ip_send itself wants to defer while the handler runs
    method PushAgain(again: seq<Packet>)
      requires Valid() && inhibit
      modifies this`qWr, queue
      ensures Valid() && Contents() == old(Contents())
    {
      for i := 0 to |again|
        invariant Valid() && Contents() == old(Contents())
      {
        var ret := Push(again[i]);
      }
    }

    // one turn of the loop of ip_defer_handler; at names the answer of ip_send
    method Turn(at: nat, outs: nat -> Outcome, again: seq<Packet>) returns (stop: bool, sent: seq<Packet>)
      requires Valid() && inhibit
      modifies this`qRd, this`qWr, queue
      ensures Valid()
      ensures var q := old(Contents());
        && (stop <==> q == [] || (q[0].tries <= 3 && outs(at) == Unreachable))
        && sent == (if q != [] && q[0].tries <= 3 then [Given(q[0])] else [])
        && Contents() == if q == [] then [] else if stop then [q[0].(tries := q[0].tries + 2)] + q[1..] else q[1..]
    {
      hide InUse, DeferQueue.Contents, DeferQueue.Valid;
      var some, ipd := Peek();
      if !some {
        return true, [];
      }
      CountTry();
      if ipd.tries > 3 {
        Drop();
        return false, [];
      }
      PushAgain(again);
      if outs(at) == Unreachable {
        CountTry();
        return true, [Given(ipd)];
      }
      Drop();
      return false, [Given(ipd)];
    }

    // ip_defer_handler; again(k) is what ip_send wants to defer when it gets packet k.  Both ways out of the loop
    // return before the flag is cleared.
    method Handler(outs: nat -> Outcome, again: nat -> seq<Packet>) returns (sent: seq<Packet>, given: seq<nat>)
      requires Valid()
      modifies this`qRd, this`qWr, this`inhibit, queue
      ensures Valid() && inhibit
      ensures Drained(Contents(), given) == Drain(old(Contents()), 0, outs)
      ensures SentAs(old(Contents()), given, sent)
    {
      hide Drain, InUse, SentAs, DeferQueue.Contents, DeferQueue.Valid;
      ghost var q := Contents();
      inhibit := true;
      var at := 0;  // names the answers of ip_send
      sent, given := [], [];
      SentNone(q);
      assert q[0..] == q;
      assert [] + Drain(q, 0, outs).given == Drain(q, 0, outs).given;
      while true
        invariant Valid() && inhibit && at <= |q| && Contents() == q[at..]
        invariant Drain(q, 0, outs) == var d := Drain(q[at..], at, outs); Drained(d.rest, given + d.given)
        invariant SentAs(q, given, sent)
        decreases |q| - at
      {
        if at < |q| {
          DrainOne(q, at, outs);
          SentOne(q, given, sent, at);
        } else {
          DrainNone(at, outs);
        }
        var stop, packet := Turn(at, outs, again(at));
        if packet != [] {
          GivenJoins(given, at, Drain(q[at + 1..], at + 1, outs).given);
          sent, given := sent + packet, given + [at];
        }
        if stop {
          return;
        }
        at := at + 1;
      }
    }
  }
}
