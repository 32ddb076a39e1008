/** Runs with the timer (src/ip_fragment.c:141-223): fragments of all datagrams and timer calls, in any order. */
module ReassemblyTimed {
  import opened IpHeader
  import opened Reassembly
  import opened ReassemblyRuns
  import opened ReassemblyAnySize

  datatype Event = Comes(x: Arrival) | Ticks(delta: int)

  ghost predicate EventOk(e: Event) {
    e.Comes? ==> FragmentOk(e.x.0, e.x.1)
  }

  ghost predicate EventsOk(es: seq<Event>) {
    forall i | 0 <= i < |es| :: EventOk(es[i])
  }

  ghost function After(m: Machine, e: Event): (r: Machine)
    requires Inv(m) && EventOk(e)
    ensures Inv(r)
  {
    match e
    case Comes(x) =>
      InputKeeps(m, x.0, x.1);
      Input(m, x.0, x.1).0
    case Ticks(delta) =>
      TickKeeps(m, delta, 0);
      Tick(m, delta, 0)
  }

  ghost function RunOf(m: Machine, es: seq<Event>): (r: Machine)
    requires Inv(m) && EventsOk(es)
    ensures Inv(r)
    decreases |es|
  {
    if es == [] then m else RunOf(After(m, es[0]), es[1..])
  }

  // ----- one datagram on its own

  /** The fragments of datagram k, and the timer calls. */
  ghost function Own(es: seq<Event>, k: BufId): (r: seq<Event>)
    requires EventsOk(es)
    ensures EventsOk(r)
  {
    if es == [] then []
    else (if es[0].Comes? && !Belongs(es[0].x.0, k) then [] else [es[0]]) + Own(es[1..], k)
  }

  /** What an event makes of the datagram's buffer. */
  ghost function Touched(b: Buffer, e: Event): (r: Buffer)
    requires |b.payload| == IP_MAX_BYTES && EventOk(e)
    ensures |r.payload| == IP_MAX_BYTES
  {
    match e
    case Comes(x) => Fill(b, x.0, x.1)
    case Ticks(delta) => b.(timer := b.timer - delta)
  }

  /** The buffer is neither completed nor given up. */
  ghost predicate Lives(b: Buffer, e: Event)
    requires |b.payload| == IP_MAX_BYTES && EventOk(e)
  {
    if e.Comes? then !Complete(Touched(b, e)) else Touched(b, e).timer > 0
  }

  ghost function TouchedAll(b: Buffer, es: seq<Event>): (r: Buffer)
    requires |b.payload| == IP_MAX_BYTES && EventsOk(es)
    ensures |r.payload| == IP_MAX_BYTES
    decreases |es|
  {
    if es == [] then b else TouchedAll(Touched(b, es[0]), es[1..])
  }

  ghost predicate LivesOn(b: Buffer, es: seq<Event>)
    requires |b.payload| == IP_MAX_BYTES && EventsOk(es)
    decreases |es|
  {
    es == [] || (Lives(b, es[0]) && LivesOn(Touched(b, es[0]), es[1..]))
  }

  // ----- the timer

  lemma TickOneKeeps(m: Machine, delta: int, i: nat)
    requires Inv(m) && i < BUFFERS
    ensures Inv(TickOne(m, delta, i))
  {
    if m.buffers[i].reserved {
      var m1 := m.(buffers := m.buffers[i := m.buffers[i].(timer := m.buffers[i].timer - delta)]);
      assert Inv(m1);
      ReleaseKeeps(m1, i);
    }
  }

  /** What the timer does to the buffer of k: its time is less, or it is free and its key is gone. */
  ghost predicate Timed(m: Machine, m': Machine, k: BufId, s: nat, delta: int)
    requires s < |m.buffers| && s < |m'.buffers|
  {
    var b := m.buffers[s].(timer := m.buffers[s].timer - delta);
    if b.timer > 0 then k in m'.tree && m'.tree[k] == s && m'.buffers[s] == b
    else k !in m'.tree && m'.buffers[s] == b.(reserved := false)
  }

  lemma TickOwn(m: Machine, delta: int, k: BufId)
    requires Inv(m) && k in m.tree
    ensures Timed(m, TickOne(m, delta, m.tree[k]), k, m.tree[k], delta)
  {
  }

  /** Another buffer's timer leaves k alone. */
  lemma TickOther(m: Machine, delta: int, i: nat, s: nat, k: BufId)
    requires Inv(m) && i < BUFFERS && s < BUFFERS && i != s
    requires k in m.tree ==> m.tree[k] == s
    ensures var m' := TickOne(m, delta, i);
      m'.buffers[s] == m.buffers[s] && (k in m'.tree <==> k in m.tree) && (k in m.tree ==> m'.tree[k] == s)
  {
  }

  lemma {:induction false} TickPast(m: Machine, delta: int, i: nat, s: nat, k: BufId)
    requires Inv(m) && s < i <= BUFFERS && (k in m.tree ==> m.tree[k] == s)
    ensures var m' := Tick(m, delta, i);
      && |m'.buffers| == BUFFERS && m'.buffers[s] == m.buffers[s]
      && (k in m'.tree <==> k in m.tree) && (k in m.tree ==> m'.tree[k] == s)
    decreases BUFFERS - i
  {
    hide TickOne;
    if i < BUFFERS {
      TickOneKeeps(m, delta, i);
      TickOther(m, delta, i, s, k);
      TickPast(TickOne(m, delta, i), delta, i + 1, s, k);
    }
  }

  lemma {:induction false} TickOn(m: Machine, delta: int, i: nat, k: BufId)
    requires Inv(m) && k in m.tree && i <= m.tree[k]
    ensures |Tick(m, delta, i).buffers| == BUFFERS && Timed(m, Tick(m, delta, i), k, m.tree[k], delta)
    decreases BUFFERS - i
  {
    hide TickOne;
    var s, m1 := m.tree[k], TickOne(m, delta, i);
    TickOneKeeps(m, delta, i);
    if i < s {
      TickOther(m, delta, i, s, k);
      TickOn(m1, delta, i + 1, k);
    } else {
      TickOwn(m, delta, k);
      TickPast(m1, delta, i + 1, s, k);
    }
  }

  // ----- isolation

  /** One event of k's own, or of another datagram. */
  lemma EventOn(m: Machine, e: Event, k: BufId)
    requires Inv(m) && EventOk(e) && k in m.tree
    ensures var s, m' := m.tree[k], After(m, e);
      && (e.Comes? && !Belongs(e.x.0, k) ==> k in m'.tree && m'.tree[k] == s && m'.buffers[s] == m.buffers[s])
      && ((e.Comes? ==> Belongs(e.x.0, k)) ==>
            if Lives(m.buffers[s], e) then k in m'.tree && m'.tree[k] == s && m'.buffers[s] == Touched(m.buffers[s], e)
            else k !in m'.tree && !m'.buffers[s].reserved)
  {
    hide Input, Fill, Complete, Answer, Tick;
    match e
    case Comes(x) =>
      if Belongs(x.0, k) {
        OwnFills(m, x);
      } else {
        OtherLeaves(m, k, x);
      }
    case Ticks(delta) =>
      TickOn(m, delta, 0, k);
  }

  lemma OwnFirst(es: seq<Event>, k: BufId)
    requires EventsOk(es) && es != []
    ensures EventOk(es[0]) && EventsOk(es[1..])
    ensures if es[0].Comes? && !Belongs(es[0].x.0, k) then Own(es, k) == Own(es[1..], k)
      else Own(es, k) != [] && Own(es, k)[0] == es[0] && Own(es, k)[1..] == Own(es[1..], k)
  {
    hide EventOk;
  }

  /** However fragments of other datagrams and timer calls come in between, the buffer of a live datagram is what its
    own fragments and the timer calls make of it, until it is completed or given up. */
  lemma {:induction false} TimedIsolation(m: Machine, es: seq<Event>, k: BufId)
    requires Inv(m) && EventsOk(es) && k in m.tree
    requires LivesOn(m.buffers[m.tree[k]], Own(es, k))
    ensures var m', s := RunOf(m, es), m.tree[k];
      k in m'.tree && m'.tree[k] == s && m'.buffers[s] == TouchedAll(m.buffers[s], Own(es, k))
    decreases |es|
  {
    hide After, Touched, Lives, EventOk, Own;
    if es == [] {
      NoneOwn(k);
    } else {
      OwnFirst(es, k);
      EventOn(m, es[0], k);
      TimedIsolation(After(m, es[0]), es[1..], k);
    }
  }

  // ----- the time that a datagram has

  /** The time that timer calls have taken. */
  ghost function Spent(es: seq<Event>): int {
    if es == [] then 0 else (if es[0].Ticks? then es[0].delta else 0) + Spent(es[1..])
  }

  lemma {:induction false} OwnSpent(es: seq<Event>, k: BufId)
    requires EventsOk(es)
    ensures Spent(Own(es, k)) == Spent(es)
  {
    hide EventOk, Own;
    if es == [] {
      NoneOwn(k);
    } else {
      OwnFirst(es, k);
      OwnSpent(es[1..], k);
    }
  }

  lemma {:induction false} TimeLeft(b: Buffer, es: seq<Event>)
    requires |b.payload| == IP_MAX_BYTES && EventsOk(es)
    ensures TouchedAll(b, es).timer == b.timer - Spent(es)
    decreases |es|
  {
    hide EventOk, Overlay, BlocksOf, NextHeader, FragmentOk;
    if es != [] {
      assert EventOk(es[0]);
      TouchedTimer(b, es[0]);
      TimeLeft(Touched(b, es[0]), es[1..]);
    }
  }

  lemma TouchedTimer(b: Buffer, e: Event)
    requires |b.payload| == IP_MAX_BYTES && EventOk(e)
    ensures Touched(b, e).timer == b.timer - if e.Ticks? then e.delta else 0
  {
  }

  /** The first fragment of a datagram gives it 15 units of time. */
  lemma FirstTimer(m: Machine, x: Arrival)
    requires Inv(m) && FragmentOk(x.0, x.1) && IdOf(x.0) !in m.tree && Input(m, x.0, x.1).1 == Held
    ensures var m', k := Input(m, x.0, x.1).0, IdOf(x.0);
      Inv(m') && k in m'.tree && m'.buffers[m'.tree[k]].timer == 15
  {
    hide Fill, Complete;
    InputKeeps(m, x.0, x.1);
    AcquireKeeps(m, x.0);
    var (m1, i) := Acquire(m, x.0);
    FillKeeps(m1, i, x.0, x.1);
    TouchedTimer(m1.buffers[i], Comes(x));
  }

  /** A datagram that is not completed is given up at the timer call with which the time taken since then reaches what
    it had, and at no other: fragments that come later gain it nothing. */
  lemma {:induction false} GivenUpAt(m: Machine, es: seq<Event>, delta: int, k: BufId)
    requires Inv(m) && EventsOk(es) && EventsOk(es + [Ticks(delta)]) && k in m.tree
    requires LivesOn(m.buffers[m.tree[k]], Own(es, k))
    ensures k in RunOf(m, es + [Ticks(delta)]).tree <==> Spent(es) + delta < m.buffers[m.tree[k]].timer
  {
    assert EventOk(Ticks(delta));
    hide Own, LivesOn, TouchedAll, EventOk, Tick;
    var b, m' := m.buffers[m.tree[k]], RunOf(m, es);
    TimedIsolation(m, es, k);
    TimeLeft(b, Own(es, k));
    OwnSpent(es, k);
    RunThen(m, es, Ticks(delta));
    EventOn(m', Ticks(delta), k);
  }

  lemma {:induction false} RunThen(m: Machine, es: seq<Event>, e: Event)
    requires Inv(m) && EventsOk(es) && EventOk(e)
    ensures EventsOk(es + [e]) && RunOf(m, es + [e]) == After(RunOf(m, es), e)
    decreases |es|
  {
    hide EventOk, After;
    if es == [] {
      assert es + [e] == [e] && [e][1..] == [];
    } else {
      assert (es + [e])[1..] == es[1..] + [e];
      RunThen(After(m, es[0]), es[1..], e);
    }
  }

  // ----- the header of a datagram

  /** It is that of the last fragment at offset 0, whatever came before and after, with the length set. */
  lemma {:induction false} HeaderIsFirst(b: Buffer, es: seq<Event>, i: nat)
    requires |b.payload| == IP_MAX_BYTES && EventsOk(es) && i < |es| && es[i].Comes? && Offset(es[i].x.0) == 0
    requires forall j | i < j < |es| && es[j].Comes? :: Offset(es[j].x.0) != 0
    ensures var h := TouchedAll(b, es).hdr; h == es[i].x.0.(len := h.len, foff := 0)
    decreases |es|
  {
    hide EventOk, Overlay, BlocksOf;
    assert EventOk(es[0]);
    if i > 0 {
      HeaderIsFirst(Touched(b, es[0]), es[1..], i - 1);
    } else {
      HeaderStays(Touched(b, es[0]), es[1..]);
    }
  }

  lemma {:induction false} HeaderStays(b: Buffer, es: seq<Event>)
    requires |b.payload| == IP_MAX_BYTES && EventsOk(es)
    requires forall j | 0 <= j < |es| && es[j].Comes? :: Offset(es[j].x.0) != 0
    ensures TouchedAll(b, es).hdr == b.hdr.(len := TouchedAll(b, es).hdr.len)
    decreases |es|
  {
    hide EventOk, Overlay, BlocksOf;
    if es != [] {
      assert EventOk(es[0]);
      HeaderStays(Touched(b, es[0]), es[1..]);
    }
  }

  /** A datagram is completed under the header of its last fragment at offset 0, with its own length and no fragment
    fields. */
  lemma {:induction false} CompletedHeader(m: Machine, es: seq<Event>, x: Arrival, k: BufId, i: nat)
    requires Inv(m) && EventsOk(es) && FragmentOk(x.0, x.1) && k in m.tree && Belongs(x.0, k)
    requires LivesOn(m.buffers[m.tree[k]], Own(es, k)) && EventsOk(Own(es, k) + [Comes(x)])
    requires var own := Own(es, k) + [Comes(x)];
      && i < |own| && own[i].Comes? && Offset(own[i].x.0) == 0
      && (forall j | i < j < |own| && own[j].Comes? :: Offset(own[j].x.0) != 0)
      && !Lives(TouchedAll(m.buffers[m.tree[k]], Own(es, k)), Comes(x))
    ensures var own, (m', o) := Own(es, k) + [Comes(x)], Input(RunOf(m, es), x.0, x.1);
      && o.Completed? && |m'.buffers| == BUFFERS
      && m'.buffers[m.tree[k]].hdr == own[i].x.0.(len := |o.data|, foff := 0)
  {
    assert EventOk(Comes(x));
    hide Fill, Complete, Input, Own, RunOf, TouchedAll, LivesOn, EventOk;
    var b, own := m.buffers[m.tree[k]], Own(es, k);
    TimedIsolation(m, es, k);
    OwnFills(RunOf(m, es), x);
    TouchedThen(b, own, Comes(x));
    HeaderIsFirst(b, own + [Comes(x)], i);
    CompletedSize(Fill(TouchedAll(b, own), x.0, x.1));
  }

  lemma CompletedSize(b: Buffer)
    requires |b.payload| == IP_MAX_BYTES && Complete(b)
    ensures Answer(b).Completed? && |Answer(b).data| == b.hdr.len
  {
  }

  lemma {:induction false} TouchedThen(b: Buffer, es: seq<Event>, e: Event)
    requires |b.payload| == IP_MAX_BYTES && EventsOk(es) && EventOk(e)
    ensures EventsOk(es + [e]) && TouchedAll(b, es + [e]) == Touched(TouchedAll(b, es), e)
    decreases |es|
  {
    hide EventOk, Touched;
    if es == [] {
      assert es + [e] == [e] && [e][1..] == [];
    } else {
      assert (es + [e])[1..] == es[1..] + [e];
      TouchedThen(Touched(b, es[0]), es[1..], e);
    }
  }

  lemma NoneOwn(k: BufId)
    ensures Own([], k) == []
  {
  }

  /** And the event at which it is completed or given up frees the buffer; a timer call delivers nothing. */
  lemma {:induction false} TimedEnd(m: Machine, es: seq<Event>, e: Event, k: BufId)
    requires Inv(m) && EventsOk(es) && EventOk(e) && k in m.tree && (e.Comes? ==> Belongs(e.x.0, k))
    requires LivesOn(m.buffers[m.tree[k]], Own(es, k))
    requires !Lives(TouchedAll(m.buffers[m.tree[k]], Own(es, k)), e)
    ensures var m', b := RunOf(m, es), TouchedAll(m.buffers[m.tree[k]], Own(es, k));
      && k !in After(m', e).tree && !After(m', e).buffers[m.tree[k]].reserved
      && (e.Comes? ==> Input(m', e.x.0, e.x.1).1 == Answer(Fill(b, e.x.0, e.x.1)) != Held)
  {
    hide Fill, Complete, Input, Tick, Own, RunOf, TouchedAll, LivesOn;
    TimedIsolation(m, es, k);
    EventOn(RunOf(m, es), e, k);
    if e.Comes? {
      OwnFills(RunOf(m, es), e.x);
    }
  }
}
