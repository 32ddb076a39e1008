/** The queue shared by two processes (util/queue_r.c:52-111; src/xstack.c:110-118, 217-232; lib/xstack.c:66-105).

  One process produces: it allocates, fills the slot and commits.  The other consumes: it peeks, reads the
  slot and discards it, or only looks (XSTACK_MSG_PEEK), or clears the queue.  Each step below is one load
  or store of a shared word, or one access to a slot; steps of the two processes interleave in any order. */
module QueueRuns {
  import opened QueueR

  /** The contents of a slot; it keeps its size. */
  type Block = seq<bv8>

  /** Where the producer is, with the values it has loaded. */
  datatype Producer =
    | Idle
    | Checking(write: nat)
    | Filling(write: nat)
    | Committing(next: nat)

  /** Where the consumer is; `upto` is the ghost commit count behind the index that a clear has loaded. */
  datatype Consumer =
    | Waiting
    | Peeking(read: nat)
    | Reading(read: nat, got: Block)
    | Holding(value: Block)
    | Checking'(value: Block, read: nat)
    | Dropping(value: Block, read: nat)
    | Clearing(write: nat, upto: nat)

  /** The shared words and slots, the two processes, and the history: all committed values, the number of
    discarded ones, those dropped unread by a clear, and the values received, each with its number. */
  datatype State = State(
    m_write: nat, m_read: nat, slots: seq<Block>,
    producer: Producer, consumer: Consumer,
    committed: seq<Block>, discarded: nat, cleared: nat, received: seq<(nat, Block)>)

  ghost predicate Init(s: State) {
    && 0 < |s.slots| && s.m_write == 0 && s.m_read == 0
    && s.producer == Idle && s.consumer == Waiting
    && s.committed == [] && s.discarded == 0 && s.cleared == 0 && s.received == []
  }

  // ----- producer steps

  /** queue_alloc loads m_write ... */
  ghost predicate AllocLoadWrite(s: State, s': State) {
    s.producer.Idle? && s' == s.(producer := Checking(s.m_write))
  }

  /** ... and m_read, and fails when they are neighbours. */
  ghost predicate AllocLoadRead(s: State, s': State)
    requires 0 < |s.slots|
  {
    && s.producer.Checking?
    && s' == s.(producer := if Next(s.producer.write, |s.slots|) == s.m_read then Idle else Filling(s.producer.write))
  }

  /** One of any number of writes to the allocated slot. */
  ghost predicate Fill(s: State, s': State) {
    && s.producer.Filling? && s.producer.write < |s.slots| == |s'.slots|
    && |s'.slots[s.producer.write]| == |s.slots[s.producer.write]|
    && s' == s.(slots := s.slots[s.producer.write := s'.slots[s.producer.write]])
  }

  ghost predicate CommitLoad(s: State, s': State)
    requires 0 < |s.slots|
  {
    s.producer.Filling? && s' == s.(producer := Committing(Next(s.m_write, |s.slots|)))
  }

  ghost predicate CommitStore(s: State, s': State) {
    && s.producer.Committing? && s.m_write < |s.slots|
    && s' == s.(producer := Idle, m_write := s.producer.next, committed := s.committed + [s.slots[s.m_write]])
  }

  // ----- consumer steps

  ghost predicate PeekLoadRead(s: State, s': State) {
    s.consumer.Waiting? && s' == s.(consumer := Peeking(s.m_read))
  }

  ghost predicate PeekLoadWrite(s: State, s': State) {
    && s.consumer.Peeking?
    && s' == s.(consumer := if s.consumer.read == s.m_write then Waiting else Reading(s.consumer.read, []))
  }

  /** One of any number of reads that copy the slot from front to back ... */
  ghost predicate Read(s: State, s': State) {
    && s.consumer.Reading? && s.consumer.read < |s.slots|
    && s'.consumer.Reading? && |s.consumer.got| < |s'.consumer.got| <= |s.slots[s.consumer.read]|
    && s' == s.(consumer := Reading(s.consumer.read,
         s.consumer.got + s.slots[s.consumer.read][|s.consumer.got|..|s'.consumer.got|]))
  }

  /** ... until all of it is there. */
  ghost predicate ReadAll(s: State, s': State) {
    && s.consumer.Reading? && s.consumer.read < |s.slots| && |s.consumer.got| == |s.slots[s.consumer.read]|
    && s' == s.(consumer := Holding(s.consumer.got))
  }

  /** XSTACK_MSG_PEEK: the element stays. */
  ghost predicate Leave(s: State, s': State) {
    s.consumer.Holding? && s' == s.(consumer := Waiting)
  }

  /** queue_discard(cb, 1) loads m_read ... */
  ghost predicate DiscardLoadRead(s: State, s': State) {
    s.consumer.Holding? && s' == s.(consumer := Checking'(s.consumer.value, s.m_read))
  }

  /** ... and m_write ... */
  ghost predicate DiscardLoadWrite(s: State, s': State) {
    && s.consumer.Checking'?
    && s' == s.(consumer :=
         if s.consumer.read == s.m_write then Waiting else Dropping(s.consumer.value, s.consumer.read))
  }

  /** ... and stores m_read. */
  ghost predicate DiscardStore(s: State, s': State)
    requires 0 < |s.slots|
  {
    && s.consumer.Dropping?
    && s' == s.(consumer := Waiting, m_read := Next(s.consumer.read, |s.slots|),
                discarded := s.discarded + 1, received := s.received + [(s.discarded, s.consumer.value)])
  }

  ghost predicate ClearLoad(s: State, s': State) {
    s.consumer.Waiting? && s' == s.(consumer := Clearing(s.m_write, |s.committed|))
  }

  ghost predicate ClearStore(s: State, s': State) {
    && s.consumer.Clearing? && s.discarded <= s.consumer.upto
    && s' == s.(consumer := Waiting, m_read := s.consumer.write,
                discarded := s.consumer.upto, cleared := s.cleared + (s.consumer.upto - s.discarded))
  }

  ghost predicate Produces(s: State, s': State)
    requires 0 < |s.slots|
  {
    AllocLoadWrite(s, s') || AllocLoadRead(s, s') || Fill(s, s') || CommitLoad(s, s') || CommitStore(s, s')
  }

  ghost predicate Consumes(s: State, s': State)
    requires 0 < |s.slots|
  {
    || PeekLoadRead(s, s') || PeekLoadWrite(s, s') || Read(s, s') || ReadAll(s, s') || Leave(s, s')
    || DiscardLoadRead(s, s') || DiscardLoadWrite(s, s') || DiscardStore(s, s')
    || ClearLoad(s, s') || ClearStore(s, s')
  }

  ghost predicate Step(s: State, s': State)
    requires 0 < |s.slots|
  {
    Produces(s, s') || Consumes(s, s')
  }

  // ----- the invariant

  /** The elements in the queue. */
  ghost function Queue(s: State): seq<Block>
    requires s.discarded <= |s.committed|
  {
    s.committed[s.discarded..]
  }

  ghost predicate Counts(s: State) {
    && 0 < |s.slots| && s.discarded <= |s.committed| < s.discarded + |s.slots|
    && s.m_write == |s.committed| % |s.slots| && s.m_read == s.discarded % |s.slots|
    && forall k | s.discarded <= k < |s.committed| :: s.slots[k % |s.slots|] == s.committed[k]
  }

  ghost predicate ProducerOk(s: State)
    requires Counts(s)
  {
    match s.producer
    case Idle => true
    case Checking(w) => w == s.m_write
    case Filling(w) => w == s.m_write && |s.committed| + 1 < s.discarded + |s.slots|
    case Committing(n) => n == Next(s.m_write, |s.slots|) && |s.committed| + 1 < s.discarded + |s.slots|
  }

  ghost predicate ConsumerOk(s: State)
    requires Counts(s)
  {
    match s.consumer
    case Waiting => true
    case Peeking(r) => r == s.m_read
    case Reading(r, got) => r == s.m_read && s.discarded < |s.committed| && got <= s.committed[s.discarded]
    case Holding(v) => s.discarded < |s.committed| && v == s.committed[s.discarded]
    case Checking'(v, r) => r == s.m_read && s.discarded < |s.committed| && v == s.committed[s.discarded]
    case Dropping(v, r) => r == s.m_read && s.discarded < |s.committed| && v == s.committed[s.discarded]
    case Clearing(w, u) => s.discarded <= u <= |s.committed| && w == u % |s.slots|
  }

  /** What the consumer has received is a part of what was committed, in order, and nothing is missing but
    what it cleared away. */
  ghost predicate ReceivedOk(s: State) {
    && |s.received| + s.cleared == s.discarded
    && (forall i | 0 <= i < |s.received| ::
          i <= s.received[i].0 < s.discarded <= |s.committed| && s.received[i].1 == s.committed[s.received[i].0])
    && (forall i, j | 0 <= i < j < |s.received| :: s.received[i].0 < s.received[j].0)
  }

  ghost predicate Inv(s: State) {
    Counts(s) && ProducerOk(s) && ConsumerOk(s) && ReceivedOk(s)
  }

  // ----- every step keeps the invariant

  lemma ProducerStep(s: State, s': State)
    requires Inv(s)
    requires AllocLoadWrite(s, s') || AllocLoadRead(s, s') || CommitLoad(s, s')
    ensures Inv(s') && Queue(s') == Queue(s)
  {
    if s.producer.Checking? {
      NextMod(|s.committed|, |s.slots|);
      if |s.committed| + 1 == s.discarded + |s.slots| {
        ModAdd(s.discarded, |s.slots|, |s.slots|);
      }
    }
  }

  /** A slot that is being filled belongs to no element. */
  lemma FillStep(s: State, s': State)
    requires Inv(s) && Fill(s, s')
    ensures Inv(s') && Queue(s') == Queue(s)
  {
    var n := |s.slots|;
    forall k | s.discarded <= k < |s.committed| ensures s'.slots[k % n] == s.committed[k] {
      ModApart(k, |s.committed|, n);
    }
  }

  lemma CommitStep(s: State, s': State)
    requires Inv(s) && CommitStore(s, s')
    ensures Inv(s') && Queue(s') == Queue(s) + [s.slots[s.m_write]]
  {
    NextMod(|s.committed|, |s.slots|);
  }

  lemma PeekStep(s: State, s': State)
    requires Inv(s)
    requires PeekLoadRead(s, s') || PeekLoadWrite(s, s') || Read(s, s') || ReadAll(s, s') || Leave(s, s')
      || DiscardLoadRead(s, s') || DiscardLoadWrite(s, s') || ClearLoad(s, s')
    ensures Inv(s') && Queue(s') == Queue(s)
    ensures Read(s, s') ==> Queue(s) != [] && s'.consumer.got <= Queue(s)[0]
    ensures ReadAll(s, s') ==> Queue(s) != [] && s'.consumer.value == Queue(s)[0]
  {
    var n := |s.slots|;
    if s.discarded < |s.committed| {
      ModApart(s.discarded, |s.committed|, n);
    }
  }

  lemma DiscardStep(s: State, s': State)
    requires Inv(s) && DiscardStore(s, s')
    ensures Inv(s') && Queue(s) != [] && Queue(s') == Queue(s)[1..]
    ensures s'.received == s.received + [(s.discarded, Queue(s)[0])]
  {
    NextMod(s.discarded, |s.slots|);
  }

  lemma ClearStep(s: State, s': State)
    requires Inv(s) && ClearStore(s, s')
    ensures Inv(s') && Queue(s') == Queue(s)[s'.discarded - s.discarded..]
  {
  }

  lemma StepKeeps(s: State, s': State)
    requires Inv(s) && Step(s, s')
    ensures Inv(s') && |s'.slots| == |s.slots| && s.committed <= s'.committed
  {
    if AllocLoadWrite(s, s') || AllocLoadRead(s, s') || CommitLoad(s, s') {
      ProducerStep(s, s');
    } else if Fill(s, s') {
      FillStep(s, s');
    } else if CommitStore(s, s') {
      CommitStep(s, s');
    } else if DiscardStore(s, s') {
      DiscardStep(s, s');
    } else if ClearStore(s, s') {
      ClearStep(s, s');
    } else {
      PeekStep(s, s');
    }
  }

  // ----- what the two processes find out

  /** A peek succeeds if and only if there is an element ... */
  lemma PeekSees(s: State, s': State)
    requires Inv(s) && PeekLoadWrite(s, s')
    ensures s'.consumer == if Queue(s) == [] then Waiting else Reading(s.m_read, [])
  {
    if s.discarded < |s.committed| {
      ModApart(s.discarded, |s.committed|, |s.slots|);
    }
  }

  /** ... and an allocation if and only if a slot more than one is free. */
  lemma AllocSees(s: State, s': State)
    requires Inv(s) && AllocLoadRead(s, s')
    ensures s'.producer == if |Queue(s)| + 1 < |s.slots| then Filling(s.m_write) else Idle
  {
    var n := |s.slots|;
    NextMod(|s.committed|, n);
    if |s.committed| + 1 < s.discarded + n {
      ModApart(s.discarded, |s.committed| + 1, n);
    } else {
      ModAdd(s.discarded, n, n);
    }
  }

  /** What was read is always discarded: nothing else can have taken it. */
  lemma DiscardSees(s: State, s': State)
    requires Inv(s) && DiscardLoadWrite(s, s')
    ensures s'.consumer == Dropping(s.consumer.value, s.m_read)
  {
    ModApart(s.discarded, |s.committed|, |s.slots|);
  }

  // ----- what they can do

  ghost predicate AllProduce(run: seq<State>) {
    run != [] && forall i | 0 <= i < |run| - 1 :: 0 < |run[i].slots| && Produces(run[i], run[i + 1])
  }

  ghost predicate AllConsume(run: seq<State>) {
    run != [] && forall i | 0 <= i < |run| - 1 :: 0 < |run[i].slots| && Consumes(run[i], run[i + 1])
  }

  /** Neither process ever waits for the other. */
  lemma NeverStuck(s: State) returns (p: State, c: State)
    requires Inv(s)
    ensures Produces(s, p) && Consumes(s, c)
  {
    p := ProducerMove(s);
    c := ConsumerMove(s);
  }

  lemma ProducerMove(s: State) returns (p: State)
    requires Inv(s)
    ensures Produces(s, p)
  {
    match s.producer
    case Idle =>
      p := s.(producer := Checking(s.m_write));
      assert AllocLoadWrite(s, p);
    case Checking(w) =>
      p := s.(producer := if Next(w, |s.slots|) == s.m_read then Idle else Filling(w));
      assert AllocLoadRead(s, p);
    case Filling(_) =>
      p := s.(producer := Committing(Next(s.m_write, |s.slots|)));
      assert CommitLoad(s, p);
    case Committing(n) =>
      p := s.(producer := Idle, m_write := n, committed := s.committed + [s.slots[s.m_write]]);
      assert CommitStore(s, p);
  }

  lemma ConsumerMove(s: State) returns (c: State)
    requires Inv(s)
    ensures Consumes(s, c)
  {
    match s.consumer
    case Waiting =>
      c := s.(consumer := Peeking(s.m_read));
      assert PeekLoadRead(s, c);
    case Peeking(r) =>
      c := s.(consumer := if r == s.m_write then Waiting else Reading(r, []));
      assert PeekLoadWrite(s, c);
    case Reading(r, got) =>
      if got == s.slots[r] {
        c := s.(consumer := Holding(got));
        assert ReadAll(s, c);
      } else {
        c := s.(consumer := Reading(r, s.slots[r]));
        assert s.slots[r] == got + s.slots[r][|got|..|s.slots[r]|];
        assert Read(s, c);
      }
    case Holding(v) =>
      c := s.(consumer := Checking'(v, s.m_read));
      assert DiscardLoadRead(s, c);
    case Checking'(v, r) =>
      c := s.(consumer := if r == s.m_write then Waiting else Dropping(v, r));
      assert DiscardLoadWrite(s, c);
    case Dropping(v, r) =>
      c := s.(consumer := Waiting, m_read := Next(r, |s.slots|), discarded := s.discarded + 1,
              received := s.received + [(s.discarded, v)]);
      assert DiscardStore(s, c);
    case Clearing(w, u) =>
      c := s.(consumer := Waiting, m_read := w, discarded := u, cleared := s.cleared + (u - s.discarded));
      assert ClearStore(s, c);
  }

  lemma {:induction false} ConsumeKeeps(run: seq<State>)
    requires AllConsume(run) && Inv(run[0])
    ensures Inv(run[|run| - 1])
    decreases |run|
  {
    hide Consumes, Produces, Inv;
    if |run| > 1 {
      assert Consumes(run[0], run[1]);
      StepKeeps(run[0], run[1]);
      ConsumeKeeps(run[1..]);
    }
  }

  lemma {:induction false} ProduceKeeps(run: seq<State>)
    requires AllProduce(run) && Inv(run[0])
    ensures Inv(run[|run| - 1])
    decreases |run|
  {
    hide Consumes, Produces, Inv;
    if |run| > 1 {
      assert Produces(run[0], run[1]);
      StepKeeps(run[0], run[1]);
      ProduceKeeps(run[1..]);
    }
  }

  lemma FirstConsume(s: State, run: seq<State>) returns (all: seq<State>)
    requires AllConsume(run) && 0 < |s.slots| && Consumes(s, run[0])
    ensures all == [s] + run && AllConsume(all) && all[|all| - 1] == run[|run| - 1]
  {
    hide Consumes;
    all := [s] + run;
    forall i | 0 <= i < |all| - 1 ensures 0 < |all[i].slots| && Consumes(all[i], all[i + 1]) {
      assert i > 0 ==> all[i] == run[i - 1];
    }
  }

  lemma FirstProduce(s: State, run: seq<State>) returns (all: seq<State>)
    requires AllProduce(run) && 0 < |s.slots| && Produces(s, run[0])
    ensures all == [s] + run && AllProduce(all) && all[|all| - 1] == run[|run| - 1]
  {
    hide Produces;
    all := [s] + run;
    forall i | 0 <= i < |all| - 1 ensures 0 < |all[i].slots| && Produces(all[i], all[i + 1]) {
      assert i > 0 ==> all[i] == run[i - 1];
    }
  }

  /** A waiting consumer gets the head of a queue that is not empty, by steps of its own. */
  lemma CanReceive(s: State) returns (run: seq<State>)
    requires Inv(s) && s.consumer == Waiting && Queue(s) != []
    ensures AllConsume(run) && run[0] == s
    ensures var s' := run[|run| - 1];
      && Inv(s') && Queue(s') == Queue(s)[1..] && s'.consumer == Waiting
      && s'.received == s.received + [(s.discarded, Queue(s)[0])]
      && (s'.m_write, s'.slots, s'.producer, s'.committed) == (s.m_write, s.slots, s.producer, s.committed)
  {
    var r, v := s.m_read, Queue(s)[0];
    ModApart(s.discarded, |s.committed|, |s.slots|);
    assert s.slots[r] == v;
    var end := s.(consumer := Waiting, m_read := Next(r, |s.slots|), discarded := s.discarded + 1,
                  received := s.received + [(s.discarded, v)]);
    run := DiscardRun(s, v, end);
    run := ReadRun(s, v, run);
    run := FirstConsume(s.(consumer := Peeking(r)), run);
    run := FirstConsume(s, run);
    ConsumeKeeps(run);
  }

  lemma DiscardRun(s: State, v: Block, end: State) returns (run: seq<State>)
    requires 0 < |s.slots| && s.m_read != s.m_write
    requires end == s.(consumer := Waiting, m_read := Next(s.m_read, |s.slots|), discarded := s.discarded + 1,
                       received := s.received + [(s.discarded, v)])
    ensures AllConsume(run) && run[0] == s.(consumer := Holding(v)) && run[|run| - 1] == end
  {
    run := [end];
    run := FirstConsume(s.(consumer := Dropping(v, s.m_read)), run);
    run := FirstConsume(s.(consumer := Checking'(v, s.m_read)), run);
    run := FirstConsume(s.(consumer := Holding(v)), run);
  }

  lemma ReadRun(s: State, v: Block, rest: seq<State>) returns (run: seq<State>)
    requires s.m_read < |s.slots| && s.slots[s.m_read] == v
    requires AllConsume(rest) && rest[0] == s.(consumer := Holding(v))
    ensures AllConsume(run) && run[0] == s.(consumer := Reading(s.m_read, [])) && run[|run| - 1] == rest[|rest| - 1]
  {
    var done := s.(consumer := Reading(s.m_read, v));
    assert ReadAll(done, rest[0]);
    run := FirstConsume(done, rest);
    if v != [] {
      var start := s.(consumer := Reading(s.m_read, []));
      assert v == [] + v[0..|v|];
      assert Read(start, done);
      run := FirstConsume(start, run);
    }
  }

  /** An idle producer puts any block of the slot's size into a queue with room, by steps of its own. */
  lemma CanSend(s: State, v: Block) returns (run: seq<State>)
    requires Inv(s) && s.producer == Idle && |Queue(s)| + 1 < |s.slots| && |v| == |s.slots[s.m_write]|
    ensures AllProduce(run) && run[0] == s
    ensures var s' := run[|run| - 1];
      && Inv(s') && Queue(s') == Queue(s) + [v] && s'.producer == Idle
      && s' == s.(m_write := s'.m_write, slots := s.slots[s.m_write := v], committed := s.committed + [v])
  {
    var w, n := s.m_write, |s.slots|;
    AllocSees(s.(producer := Checking(w)), s.(producer := if Next(w, n) == s.m_read then Idle else Filling(w)));
    run := SendRun(s, v);
    ProduceKeeps(run);
  }

  lemma SendRun(s: State, v: Block) returns (run: seq<State>)
    requires s.producer == Idle && s.m_write < |s.slots| && |v| == |s.slots[s.m_write]|
    requires Next(s.m_write, |s.slots|) != s.m_read
    ensures AllProduce(run) && run[0] == s
    ensures run[|run| - 1] == s.(m_write := Next(s.m_write, |s.slots|), slots := s.slots[s.m_write := v],
      committed := s.committed + [v])
  {
    var w, n := s.m_write, |s.slots|;
    var filled := s.(slots := s.slots[w := v]);
    run := [filled.(m_write := Next(w, n), committed := s.committed + [v])];
    run := FirstProduce(filled.(producer := Committing(Next(w, n))), run);
    run := FirstProduce(filled.(producer := Filling(w)), run);
    var start := s.(producer := Filling(w));
    assert Fill(start, filled.(producer := Filling(w)));
    run := FirstProduce(start, run);
    run := FirstProduce(s.(producer := Checking(w)), run);
    run := FirstProduce(s, run);
  }

  /** And a waiting consumer can clear all of it. */
  lemma CanClear(s: State) returns (run: seq<State>)
    requires Inv(s) && s.consumer == Waiting
    ensures AllConsume(run) && run[0] == s
    ensures var s' := run[|run| - 1];
      Inv(s') && Queue(s') == [] && s'.consumer == Waiting && s'.received == s.received
  {
    var n := |s.committed|;
    var end := s.(m_read := s.m_write, discarded := n, cleared := s.cleared + (n - s.discarded));
    run := FirstConsume(s.(consumer := Clearing(s.m_write, n)), [end]);
    run := FirstConsume(s, run);
    ConsumeKeeps(run);
  }

  // ----- runs

  /** A run: a start and any interleaving of steps of the two processes. */
  ghost predicate Run(run: seq<State>) {
    && run != [] && Init(run[0])
    && forall i | 0 <= i < |run| - 1 :: 0 < |run[i].slots| && Step(run[i], run[i + 1])
  }

  lemma {:induction false} RunKeeps(run: seq<State>)
    requires Run(run)
    ensures Inv(run[|run| - 1]) && |run[|run| - 1].slots| == |run[0].slots|
  {
    if |run| > 1 {
      var before := run[..|run| - 1];
      RunKeeps(before);
      assert Step(run[|run| - 2], run[|run| - 1]);
      StepKeeps(before[|before| - 1], run[|run| - 1]);
    }
  }

  /** After every run without a clear, the consumer has received exactly a prefix of what was committed. */
  lemma ReceivedIsPrefix(run: seq<State>)
    requires Run(run)
    ensures var s := run[|run| - 1]; s.cleared == 0 ==>
      |s.received| == s.discarded <= |s.committed|
      && forall i | 0 <= i < |s.received| :: s.received[i] == (i, s.committed[i])
  {
    RunKeeps(run);
    var s := run[|run| - 1];
    if s.cleared == 0 {
      InTurn(s, |s.received|);
    }
  }

  /** Numbers that rise by at least one and stay below their count are 0, 1, 2, ... */
  lemma InTurn(s: State, m: nat)
    requires ReceivedOk(s) && s.cleared == 0 && m <= |s.received|
    ensures forall i | |s.received| - m <= i < |s.received| :: s.received[i].0 == i
  {
    if m > 0 {
      InTurn(s, m - 1);
      var i := |s.received| - m;
      assert i <= s.received[i].0 < s.discarded;
      assert m > 1 ==> s.received[i].0 < s.received[i + 1].0;
    }
  }

  /** After every run, what the consumer has received is a part of what was committed, in order, and every
    committed element is received, cleared or still in the queue. */
  lemma NothingLost(run: seq<State>)
    requires Run(run)
    ensures var s := run[|run| - 1];
      && s.discarded <= |s.committed|
      && |s.committed| == |s.received| + s.cleared + |Queue(s)|
      && (forall i | 0 <= i < |s.received| ::
            s.received[i].0 < s.discarded && s.received[i].1 == s.committed[s.received[i].0])
      && (forall i, j | 0 <= i < j < |s.received| :: s.received[i].0 < s.received[j].0)
  {
    RunKeeps(run);
  }

  /** In every reachable state the two processes use different slots, and no slot lies outside the array. */
  lemma SlotsApart(run: seq<State>, b_size: nat, array_size: nat)
    requires Run(run) && |run[0].slots| * b_size <= array_size
    ensures var s := run[|run| - 1];
      && |Filled(s) * Drained(s)| == 0
      && forall i | i in Filled(s) + Drained(s) :: i * b_size + b_size <= array_size
  {
    RunKeeps(run);
    var s := run[|run| - 1];
    if s.discarded < |s.committed| {
      ModApart(s.discarded, |s.committed|, |s.slots|);
    }
    forall i | i in Filled(s) + Drained(s) ensures i * b_size + b_size <= array_size {
      InBounds(i, |s.slots|, b_size);
    }
  }

  /** The slot the producer may be writing, and the slot the consumer may be reading. */
  ghost function Filled(s: State): set<nat> {
    if s.producer.Filling? then {s.producer.write} else if s.producer.Committing? then {s.m_write} else {}
  }

  ghost function Drained(s: State): set<nat> {
    if s.consumer.Reading? then {s.consumer.read} else if s.consumer.Holding? then {s.m_read} else {}
  }

  // ----- the code makes such steps

  ghost predicate Shows(q: QueueCb, s: State)
    reads q
  {
    q.Valid() && q.m_write == s.m_write && q.m_read == s.m_read && q.a_len == |s.slots|
  }

  lemma UsedIsQueue(q: QueueCb, s: State)
    requires Inv(s) && Shows(q, s)
    ensures q.Used() == |Queue(s)|
  {
    ModAdd(s.discarded, |Queue(s)|, |s.slots|);
  }

  /** queue_peek is the two steps of a peek, and returns 1 exactly when they leave the consumer reading. */
  method RunPeek(q: QueueCb, ghost s: State) returns (ok: bool, index: nat, ghost s1: State, ghost s2: State)
    requires Inv(s) && Shows(q, s) && s.consumer == Waiting
    ensures PeekLoadRead(s, s1) && PeekLoadWrite(s1, s2) && Shows(q, s2)
    ensures s2.consumer == (if ok then Reading(s.m_read, []) else Waiting) && (ok ==> index == s.m_read * q.b_size)
  {
    UsedIsQueue(q, s);
    ok, index := q.Peek();
    s1 := s.(consumer := Peeking(s.m_read));
    s2 := s.(consumer := if s.m_read == s.m_write then Waiting else Reading(s.m_read, []));
    PeekSees(s1, s2);
  }

  /** queue_alloc is the two steps of an allocation, and fails exactly when they leave the producer idle. */
  method RunAlloc(q: QueueCb, ghost s: State) returns (index: int, ghost s1: State, ghost s2: State)
    requires Inv(s) && Shows(q, s) && s.producer == Idle
    ensures AllocLoadWrite(s, s1) && AllocLoadRead(s1, s2) && Shows(q, s2)
    ensures s2.producer == (if index == -1 then Idle else Filling(s.m_write))
    ensures index != -1 ==> index == s.m_write * q.b_size
  {
    UsedIsQueue(q, s);
    index := q.Alloc();
    s1 := s.(producer := Checking(s.m_write));
    s2 := s.(producer := if Next(s.m_write, |s.slots|) == s.m_read then Idle else Filling(s.m_write));
    AllocSees(s1, s2);
  }

  /** queue_commit is the two steps of a commit. */
  method RunCommit(q: QueueCb, ghost s: State) returns (ghost s1: State, ghost s2: State)
    requires Inv(s) && Shows(q, s) && s.producer == Filling(s.m_write)
    modifies q`m_write
    ensures CommitLoad(s, s1) && CommitStore(s1, s2) && Shows(q, s2)
  {
    UsedIsQueue(q, s);
    q.Commit();
    var next := Next(s.m_write, |s.slots|);
    s1 := s.(producer := Committing(next));
    s2 := s.(producer := Idle, m_write := next, committed := s.committed + [s.slots[s.m_write]]);
  }

  /** queue_discard(cb, 1) is the three steps of a discard, and returns 1. */
  method RunDiscard(q: QueueCb, ghost s: State)
      returns (count: nat, ghost s1: State, ghost s2: State, ghost s3: State)
    requires Inv(s) && Shows(q, s) && s.consumer.Holding?
    modifies q`m_read
    ensures DiscardLoadRead(s, s1) && DiscardLoadWrite(s1, s2) && DiscardStore(s2, s3) && Shows(q, s3) && count == 1
  {
    UsedIsQueue(q, s);
    var v, r := s.consumer.value, s.m_read;
    count := q.Discard(1);
    s1 := s.(consumer := Checking'(v, r));
    s2 := s.(consumer := if r == s.m_write then Waiting else Dropping(v, r));
    PeekStep(s, s1);
    DiscardSees(s1, s2);
    s3 := s.(consumer := Waiting, m_read := Next(r, |s.slots|), discarded := s.discarded + 1,
             received := s.received + [(s.discarded, v)]);
  }
}
