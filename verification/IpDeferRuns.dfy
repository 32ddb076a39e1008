/** Runs of the deferred-send queue: any order of pushes and handler runs, and any answers of ip_send. */
module IpDeferRuns {
  import opened IpDefer

  datatype Event = Push(p: Packet) | Handle(outs: nat -> Outcome)

  /** The queue, the packets ever taken in, and the numbers of those given to ip_send, in order. */
  datatype System = System(queue: seq<Slot>, inhibited: bool, pushed: seq<Packet>, log: seq<int>)

  const START: System := System([], false, [], [])

  /** A push takes the packet in. */
  predicate Accepts(s: System, p: Packet) {
    !s.inhibited && |s.queue| < DEFER_MAX - 1 && |p.data| <= ETHER_ALEN
  }

  /** One step; the slot of a push is told by what it holds. */
  ghost predicate Step(s: System, e: Event, s': System) {
    match e
    case Push(p) =>
      if Accepts(s, p) then
        exists slot: Slot :: slot.tries == 0 && Holds(slot, p)
          && s' == System(s.queue + [slot], false, s.pushed + [p], s.log)
      else s' == s
    case Handle(outs) =>
      var d := Drain(s.queue, 0, outs);
      s' == System(d.rest, true, s.pushed, s.log + Numbers(First(s), d.given))
  }

  /** The number of the first packet in the queue. */
  function First(s: System): int {
    |s.pushed| - |s.queue|
  }

  function Numbers(first: int, given: seq<nat>): seq<int> {
    seq(|given|, i requires 0 <= i < |given| => first + given[i])
  }

  // ----- one run of the handler

  /** The numbers from a up to b, b excluded. */
  ghost predicate Consecutive(s: seq<int>, a: int, b: int) {
    |s| == (if a < b then b - a else 0) && forall i | 0 <= i < |s| :: s[i] == a + i
  }

  /** Only the head has been tried, and two tries are counted for each time that it found no route. */
  ghost predicate OnlyHeadTried(q: seq<Slot>) {
    && (forall i | 0 < i < |q| :: q[i].tries == 0)
    && (q != [] ==> q[0].tries in {0, 2, 4})
  }

  function Skip(q: seq<Slot>): int {
    if q != [] && q[0].tries > 3 then 1 else 0
  }

  /** What is left when the first k packets are gone: the next one has stopped the run. */
  function Remaining(q: seq<Slot>, k: nat): (r: seq<Slot>)
    requires k <= |q|
    ensures |r| == |q| - k && (k < |q| ==> r[0] == q[k].(tries := q[k].tries + 2))
    ensures forall i | 0 < i < |r| :: r[i] == q[k + i]
  {
    if k == |q| then [] else [q[k].(tries := q[k].tries + 2)] + q[k + 1..]
  }

  /** The number after the last packet given to ip_send, when k were dropped and numbers begin at at. */
  function End(q: seq<Slot>, at: int, k: nat): int {
    if k == |q| then at + k else at + k + 1
  }

  /** A run drops the first k packets.  It gives them to ip_send in order, except for a head that is out of tries,
    and with them the packet that stops it. */
  ghost predicate Ran(q: seq<Slot>, at: int, d: Drained, k: nat) {
    && Skip(q) <= k <= |q| && d.rest == Remaining(q, k)
    && Consecutive(d.given, at + Skip(q), End(q, at, k))
  }

  lemma {:induction false} RunsInOrder(q: seq<Slot>, at: nat, outs: nat -> Outcome) returns (k: nat)
    requires OnlyHeadTried(q)
    ensures Ran(q, at, Drain(q, at, outs), k)
    decreases |q|
  {
    hide Ran;
    RanNot(q, at);
    if q == [] || (q[0].tries <= 3 && outs(at) == Unreachable) {
      k := 0;
    } else {
      var l := RunsInOrder(q[1..], at + 1, outs);
      k := l + 1;
      RanOn(q, at, Drain(q[1..], at + 1, outs), l);
    }
  }

  lemma RanNot(q: seq<Slot>, at: nat)
    ensures q == [] ==> Ran(q, at, Drained([], []), 0)
    ensures q != [] && q[0].tries <= 3 ==> Ran(q, at, Drained([q[0].(tries := q[0].tries + 2)] + q[1..], [at]), 0)
  {
  }

  lemma RanOn(q: seq<Slot>, at: nat, d: Drained, l: nat)
    requires q != [] && OnlyHeadTried(q) && Ran(q[1..], at + 1, d, l)
    ensures Ran(q, at, if q[0].tries > 3 then d else Drained(d.rest, [at] + d.given), l + 1)
  {
    hide Consecutive, Remaining;
    RemainingOn(q, l);
    if Skip(q) == 0 {
      ConsecutiveOn(d.given, at, End(q, at, l + 1));
    }
  }

  lemma RemainingOn(q: seq<Slot>, l: nat)
    requires q != [] && l < |q|
    ensures Remaining(q[1..], l) == Remaining(q, l + 1)
  {
    var a, b := Remaining(q[1..], l), Remaining(q, l + 1);
    forall i | 0 <= i < |a| ensures a[i] == b[i] {
    }
  }

  lemma ConsecutiveOn(s: seq<int>, a: int, b: int)
    requires Consecutive(s, a + 1, b) && a < b
    ensures Consecutive([a] + s, a, b)
  {
  }

  // ----- counting

  function Count(s: seq<int>, p: int): nat {
    multiset(s)[p]
  }

  lemma {:induction false} CountConsecutive(s: seq<int>, a: int, b: int, p: int)
    requires Consecutive(s, a, b)
    ensures Count(s, p) == if a <= p < b then 1 else 0
    decreases |s|
  {
    if s != [] {
      var n := |s| - 1;
      assert s == s[..n] + [s[n]];
      CountConsecutive(s[..n], a, b - 1, p);
    }
  }

  lemma CountNone(s: seq<int>, p: int)
    requires forall i | 0 <= i < |s| :: s[i] != p
    ensures Count(s, p) == 0
  {
  }

  lemma CountAt(s: seq<int>, i: nat)
    requires i < |s|
    ensures Count(s, s[i]) >= 1
  {
    assert s[i] in multiset(s);
  }

  // ----- all runs

  /** How often packet p has been given to ip_send. */
  ghost predicate Counted(s: System, p: int) {
    var n := Count(s.log, p);
    if 0 <= p < First(s) then 1 <= n <= 2
    else if p == First(s) && s.queue != [] then 2 * n == s.queue[0].tries
    else n == 0
  }

  /** The slots hold the packets that were taken in last. */
  ghost predicate Queued(s: System)
    requires 0 <= First(s)
  {
    forall i | 0 <= i < |s.queue| :: Holds(s.queue[i], s.pushed[First(s) + i])
  }

  /** Numbers that never fall, up to the first in the queue. */
  ghost predicate InTurn(log: seq<int>, first: int) {
    && (forall i, j | 0 <= i < j < |log| :: log[i] <= log[j])
    && (forall i | 0 <= i < |log| :: 0 <= log[i] <= first)
  }

  ghost predicate Inv(s: System) {
    && First(s) >= 0 && |s.queue| < DEFER_MAX
    && OnlyHeadTried(s.queue) && Queued(s)
    && (!s.inhibited ==> First(s) == 0 && s.log == [])
    && InTurn(s.log, First(s))
    && (forall p :: Counted(s, p))
  }

  lemma PushKeeps(s: System, e: Event, s': System)
    requires Inv(s) && Step(s, e, s') && e.Push?
    ensures Inv(s')
  {
    forall p ensures Counted(s', p) {
      assert Counted(s, p);
    }
  }

  lemma NumbersConsecutive(first: int, given: seq<nat>, a: int, b: int)
    requires Consecutive(given, a, b)
    ensures Consecutive(Numbers(first, given), first + a, first + b)
  {
  }

  lemma HandleCounts(s: System, s': System, d: Drained, k: nat, more: seq<int>)
    requires Inv(s) && Ran(s.queue, 0, d, k) && s' == System(d.rest, true, s.pushed, s.log + more)
    requires Consecutive(more, First(s) + Skip(s.queue), End(s.queue, First(s), k))
    ensures First(s') == First(s) + k && forall p :: Counted(s', p)
  {
    hide Consecutive, Queued, InTurn;
    forall p ensures Counted(s', p) {
      assert Counted(s, p);
      CountConsecutive(more, First(s) + Skip(s.queue), End(s.queue, First(s), k), p);
      assert Count(s'.log, p) == Count(s.log, p) + Count(more, p);
    }
  }

  lemma HandleOrders(log: seq<int>, more: seq<int>, first: int, a: int, b: int, first': int)
    requires InTurn(log, first) && Consecutive(more, a, b) && 0 <= first <= a && first <= first' && b <= first' + 1
    ensures InTurn(log + more, first')
  {
    var log' := log + more;
    forall i | 0 <= i < |log'| ensures 0 <= log'[i] <= first' {
      assert log'[i] == if i < |log| then log[i] else more[i - |log|];
    }
    forall i, j | 0 <= i < j < |log'| ensures log'[i] <= log'[j] {
      assert log'[i] == if i < |log| then log[i] else more[i - |log|];
      assert log'[j] == if j < |log| then log[j] else more[j - |log|];
    }
  }

  lemma HandleTries(q: seq<Slot>, k: nat)
    requires OnlyHeadTried(q) && Skip(q) <= k <= |q|
    ensures OnlyHeadTried(Remaining(q, k))
  {
  }

  lemma HandleQueue(s: System, k: nat, s': System)
    requires 0 <= First(s) && Queued(s) && k <= |s.queue|
    requires s'.queue == Remaining(s.queue, k) && s'.pushed == s.pushed
    ensures Queued(s')
  {
    hide Holds;
    forall i | 0 <= i < |s'.queue| ensures Holds(s'.queue[i], s'.pushed[First(s') + i]) {
      assert Holds(s.queue[k + i], s.pushed[First(s) + (k + i)]);
      TriesAside(s.queue[k + i], s.pushed[First(s) + (k + i)], s'.queue[i].tries);
    }
  }

  lemma TriesAside(s: Slot, p: Packet, tries: int)
    ensures Holds(s.(tries := tries), p) == Holds(s, p)
  {
  }

  lemma HandleKeeps(s: System, s': System, d: Drained, k: nat)
    requires Inv(s) && Ran(s.queue, 0, d, k)
    requires s' == System(d.rest, true, s.pushed, s.log + Numbers(First(s), d.given))
    ensures Inv(s')
  {
    hide Numbers, Consecutive, Queued, InTurn, Counted, OnlyHeadTried, Remaining;
    var more := Numbers(First(s), d.given);
    NumbersConsecutive(First(s), d.given, Skip(s.queue), End(s.queue, 0, k));
    HandleCounts(s, s', d, k, more);
    HandleOrders(s.log, more, First(s), First(s) + Skip(s.queue), End(s.queue, First(s), k), First(s'));
    HandleTries(s.queue, k);
    HandleQueue(s, k, s');
  }

  lemma StepKeeps(s: System, e: Event, s': System)
    requires Inv(s) && Step(s, e, s')
    ensures Inv(s')
  {
    hide Inv, Numbers, Drain, Ran, Holds;
    match e
    case Push(p) =>
      PushKeeps(s, e, s');
    case Handle(outs) =>
      HeadTried(s);
      var k := RunsInOrder(s.queue, 0, outs);
      HandleKeeps(s, s', Drain(s.queue, 0, outs), k);
  }

  lemma HeadTried(s: System)
    requires Inv(s)
    ensures OnlyHeadTried(s.queue)
  {
  }

  ghost predicate IsRun(states: seq<System>, events: seq<Event>) {
    && |states| == |events| + 1 && states[0] == START
    && forall i | 0 <= i < |events| :: Step(states[i], events[i], states[i + 1])
  }

  lemma {:induction false} RunKeeps(states: seq<System>, events: seq<Event>, i: nat)
    requires IsRun(states, events) && i < |states|
    ensures Inv(states[i])
  {
    hide Step, Inv;
    if i == 0 {
      StartInv();
    } else {
      RunKeeps(states, events, i - 1);
      StepKeeps(states[i - 1], events[i - 1], states[i]);
    }
  }

  lemma StartInv()
    ensures Inv(START)
  {
    forall p ensures Counted(START, p) {
      CountNone([], p);
    }
  }

  /** Packets go to ip_send in the order in which they were taken in, and one that has left the queue went once or
    twice. */
  lemma InOrderAtMostTwice(states: seq<System>, events: seq<Event>, i: nat)
    requires IsRun(states, events) && i < |states|
    ensures var s := states[i];
      && (forall a, b | 0 <= a < b < |s.log| :: 0 <= s.log[a] <= s.log[b] < |s.pushed|)
      && (forall p | 0 <= p < |s.pushed| :: Count(s.log, p) <= 2)
      && (forall p | 0 <= p < |s.pushed| - |s.queue| :: Count(s.log, p) >= 1)
  {
    hide Step;
    RunKeeps(states, events, i);
    var s := states[i];
    forall p | 0 <= p < |s.pushed| ensures Count(s.log, p) <= 2 {
      assert Counted(s, p);
    }
    forall p | 0 <= p < |s.pushed| - |s.queue| ensures Count(s.log, p) >= 1 {
      assert Counted(s, p);
    }
    forall a | 0 <= a < |s.log| ensures s.log[a] < |s.pushed| {
      assert Counted(s, |s.pushed|);
      CountAt(s.log, a);
    }
  }

  /** The flag that keeps the handler's own packets out is never cleared: a push takes its packet in exactly when the
    handler has not run at all, the packet is short and there is room. */
  lemma {:induction false} InhibitedIffRan(states: seq<System>, events: seq<Event>, i: nat)
    requires IsRun(states, events) && i < |states|
    ensures states[i].inhibited <==> exists j :: 0 <= j < i && events[j].Handle?
  {
    hide Drain, Numbers;
    if i > 0 {
      InhibitedIffRan(states, events, i - 1);
      assert Step(states[i - 1], events[i - 1], states[i]);
      if events[i - 1].Handle? {
        assert states[i].inhibited;
      }
    }
  }

  lemma PushedIff(states: seq<System>, events: seq<Event>, i: nat)
    requires IsRun(states, events) && i < |events| && events[i].Push?
    ensures states[i + 1].pushed == states[i].pushed + [events[i].p] <==>
      && (forall j | 0 <= j < i :: !events[j].Handle?)
      && |events[i].p.data| <= 6 && |states[i].queue| < 19
  {
    InhibitedIffRan(states, events, i);
    assert Step(states[i], events[i], states[i + 1]);
    if !Accepts(states[i], events[i].p) {
      assert |states[i + 1].pushed| == |states[i].pushed|;
    }
  }

  // ----- the code makes such runs

  ghost predicate Shows(q: DeferQueue, s: System)
    reads q, q.queue
  {
    q.Valid() && q.Contents() == s.queue && q.inhibit == s.inhibited
  }

  /** ip_defer_push is a step of the run. */
  method TakeIn(q: DeferQueue, p: Packet, ghost s: System) returns (ret: int, ghost s': System)
    requires Shows(q, s) && |s.queue| < DEFER_MAX
    modifies q`qWr, q.queue
    ensures Shows(q, s') && Step(s, Push(p), s') && (ret == 0 <==> Accepts(s, p))
  {
    ret := q.Push(p);
    if ret == 0 {
      ghost var slot: Slot :| slot.tries == 0 && Holds(slot, p) && q.Contents() == s.queue + [slot];
      s' := System(s.queue + [slot], false, s.pushed + [p], s.log);
    } else {
      s' := s;
    }
  }

  /** What ip_send is given for packet p: the size was never stored, so all data is lost. */
  function Stripped(p: Packet): Packet {
    p.(data := [])
  }

  /** ip_defer_handler is a step of the run, and what it sends are the packets whose numbers it logs, stripped: a packet
    goes out as it was taken in if and only if it carries nothing. */
  method RunHandler(q: DeferQueue, outs: nat -> Outcome, again: nat -> seq<Packet>, ghost s: System)
      returns (sent: seq<Packet>, ghost s': System)
    requires Shows(q, s) && Inv(s)
    modifies q`qRd, q`qWr, q`inhibit, q.queue
    ensures Shows(q, s') && Step(s, Handle(outs), s')
    ensures |s'.log| == |s.log| + |sent| && s.log <= s'.log
    ensures forall i | 0 <= i < |sent| ::
      && 0 <= s'.log[|s.log| + i] < |s.pushed| && sent[i] == Stripped(s.pushed[s'.log[|s.log| + i]])
      && (sent[i] == s.pushed[s'.log[|s.log| + i]] <==> s.pushed[s'.log[|s.log| + i]].data == [])
  {
    hide Drain, Queued, InTurn, Counted, SentAs, Holds, Consecutive, OnlyHeadTried;
    var given;
    sent, given := q.Handler(outs, again);
    s' := System(q.Contents(), true, s.pushed, s.log + Numbers(First(s), given));
    GivenStripped(s, given, sent);
  }

  lemma GivenStripped(s: System, given: seq<nat>, sent: seq<Packet>)
    requires Inv(s) && SentAs(s.queue, given, sent)
    ensures |Numbers(First(s), given)| == |sent|
    ensures forall i | 0 <= i < |sent| ::
      0 <= Numbers(First(s), given)[i] < |s.pushed| && sent[i] == Stripped(s.pushed[Numbers(First(s), given)[i]])
  {
    forall i | 0 <= i < |sent|
      ensures 0 <= Numbers(First(s), given)[i] < |s.pushed|
      ensures sent[i] == Stripped(s.pushed[Numbers(First(s), given)[i]])
    {
      assert Holds(s.queue[given[i]], s.pushed[First(s) + given[i]]);
    }
  }

  // ----- the queue empties

  /** How many runs the queue can last. */
  function Left(q: seq<Slot>): int {
    if q == [] then 0 else 2 * |q| + 1 - q[0].tries / 2
  }

  lemma Shorter(q: seq<Slot>, outs: nat -> Outcome)
    requires OnlyHeadTried(q) && q != []
    ensures 0 <= Left(Drain(q, 0, outs).rest) < Left(q)
  {
    hide Numbers, Consecutive;
    var k := RunsInOrder(q, 0, outs);
  }

  /** A packet for an unreachable host goes to ip_send in two runs of the handler, and the third one drops it. */
  lemma TriedTwice(states: seq<System>, events: seq<Event>)
    requires IsRun(states, events) && |events| == 4 && events[0].Push? && |events[0].p.data| <= 6
    requires forall j | 1 <= j < 4 :: events[j].Handle? && events[j].outs(0) == Unreachable
    ensures states[1].log == [] && states[2].log == [0] && states[3].log == [0, 0] && states[4].log == [0, 0]
    ensures |states[1].queue| == |states[2].queue| == |states[3].queue| == 1 && states[4].queue == []
  {
    hide Drain;
    assert Step(states[0], events[0], states[1]);
    assert Step(states[1], events[1], states[2]);
    assert Step(states[2], events[2], states[3]);
    assert Step(states[3], events[3], states[4]);
    OnlyOne(states[1].queue, events[1].outs);
    OnlyOne(states[2].queue, events[2].outs);
    OnlyOne(states[3].queue, events[3].outs);
  }

  lemma OnlyOne(q: seq<Slot>, outs: nat -> Outcome)
    requires |q| == 1 && outs(0) == Unreachable
    ensures var d := Drain(q, 0, outs);
      if q[0].tries > 3 then d == Drained([], []) else d == Drained([q[0].(tries := q[0].tries + 2)], [0])
  {
    DrainNone(1, outs);
    assert q[1..] == [];
  }

  function Handles(events: seq<Event>): nat {
    if events == [] then 0 else Handles(events[..|events| - 1]) + if events[|events| - 1].Handle? then 1 else 0
  }

  /** Whatever ip_send answers, 39 runs of the handler leave nothing behind. */
  lemma {:induction false} Empties(states: seq<System>, events: seq<Event>, i: nat)
    requires IsRun(states, events) && i < |states|
    ensures states[i].queue == [] || Left(states[i].queue) <= 39 - Handles(events[..i])
    ensures Handles(events[..i]) >= 39 ==> states[i].queue == []
  {
    hide Drain, Numbers, Counted;
    RunKeeps(states, events, i);
    if i > 0 {
      RunKeeps(states, events, i - 1);
      Empties(states, events, i - 1);
      assert events[..i][..i - 1] == events[..i - 1];
      assert Step(states[i - 1], events[i - 1], states[i]);
      match events[i - 1]
      case Push(p) =>
        NotYet(states, events, i - 1);
      case Handle(outs) =>
        if states[i - 1].queue != [] {
          Shorter(states[i - 1].queue, outs);
        } else {
          assert Drain([], 0, outs).rest == [] by {
            DrainNone(0, outs);
          }
        }
    }
  }

  lemma {:induction false} NotYet(states: seq<System>, events: seq<Event>, i: nat)
    requires IsRun(states, events) && i < |states|
    ensures !states[i].inhibited ==>
      Handles(events[..i]) == 0 && (states[i].queue != [] ==> states[i].queue[0].tries == 0)
  {
    hide Drain, Numbers;
    if i > 0 {
      NotYet(states, events, i - 1);
      assert events[..i][..i - 1] == events[..i - 1];
      assert Step(states[i - 1], events[i - 1], states[i]);
    }
  }
}
