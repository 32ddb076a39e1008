/** Datagrams of any size among others (src/ip_fragment.c:69-206): what the marks of earlier datagrams do. */
module ReassemblyAnySize {
  import opened Checksum
  import opened IpHeader
  import opened Reassembly
  import opened ReassemblyRuns
  import opened ReassemblyLimits

  // ----- a live buffer among arrivals of other datagrams

  /** What ip_fragment_input makes of a buffer after a fragment. */
  function Answer(b: Buffer): Outcome
    requires |b.payload| == IP_MAX_BYTES
  {
    if Complete(b) then Completed(b.payload[..b.hdr.len]) else Held
  }

  /** A fragment of another datagram leaves the buffer of k alone. */
  lemma OtherLeaves(m: Machine, k: BufId, x: Arrival)
    requires Inv(m) && FragmentOk(x.0, x.1) && !Belongs(x.0, k) && k in m.tree
    ensures var m' := Input(m, x.0, x.1).0;
      Inv(m') && k in m'.tree && m'.tree[k] == m.tree[k] && m'.buffers[m.tree[k]] == m.buffers[m.tree[k]]
  {
    InputKeeps(m, x.0, x.1);
    if HasRoom(m, IdOf(x.0)) {
      AcquireKeeps(m, x.0);
    }
  }

  /** A fragment of k fills its buffer, and releases it when it is complete. */
  lemma OwnFills(m: Machine, x: Arrival)
    requires Inv(m) && FragmentOk(x.0, x.1) && IdOf(x.0) in m.tree
    ensures var i := m.tree[IdOf(x.0)];
      var b := Fill(m.buffers[i], x.0, x.1);
      var (m', o) := Input(m, x.0, x.1);
      && Inv(m') && o == Answer(b) && (!Complete(b) ==> o == Held)
      && m'.buffers == m.buffers[i := if Complete(b) then b.(reserved := false) else b]
      && m'.tree == if Complete(b) then m.tree - {IdOf(x.0)} else m.tree
  {
    InputKeeps(m, x.0, x.1);
    FillKeeps(m, m.tree[IdOf(x.0)], x.0, x.1);
  }

  /** A fragment whose header differs from that of a live datagram in source, destination, protocol or identification
    leaves its buffer and its place in the tree as they were ... */
  lemma DifferentLeaves(m: Machine, i: nat, x: Arrival)
    requires Inv(m) && FragmentOk(x.0, x.1) && i < BUFFERS && m.buffers[i].reserved && Differ(x.0, m.buffers[i].hdr)
    ensures var m' := Input(m, x.0, x.1).0;
      m'.buffers[i] == m.buffers[i] && forall k :: k in m'.tree && m'.tree[k] == i <==> k in m.tree && m.tree[k] == i
  {
    var k := IdOf(m.buffers[i].hdr);
    IdOfIs(x.0, m.buffers[i].hdr, k);
    IdOfIs(m.buffers[i].hdr, x.0, k);
    OtherLeaves(m, k, x);
    OneKey(m, i);
    OneKey(Input(m, x.0, x.1).0, i);
  }

  /** ... and one that agrees in all four goes into that buffer. */
  lemma SameFills(m: Machine, i: nat, x: Arrival)
    requires Inv(m) && FragmentOk(x.0, x.1) && i < BUFFERS && m.buffers[i].reserved && !Differ(x.0, m.buffers[i].hdr)
    ensures var (m', o) := Input(m, x.0, x.1);
      var b := Fill(m.buffers[i], x.0, x.1);
      o == Answer(b) && m'.buffers == m.buffers[i := if Complete(b) then b.(reserved := false) else b]
  {
    IdOfIs(x.0, m.buffers[i].hdr, IdOf(x.0));
    OwnFills(m, x);
  }

  lemma OneKey(m: Machine, i: nat)
    requires Inv(m) && i < BUFFERS && m.buffers[i].reserved
    ensures forall k :: k in m.tree && m.tree[k] == i <==> k == IdOf(m.buffers[i].hdr)
  {
  }

  lemma {:induction false} FillAllOn(b: Buffer, x: Arrival, xs: seq<Arrival>)
    requires |b.payload| == IP_MAX_BYTES && FragmentOk(x.0, x.1) && AllOk(xs)
    ensures AllOk([x] + xs) && FillAll(b, [x] + xs) == FillAll(Fill(b, x.0, x.1), xs)
    decreases |xs|
  {
    hide FragmentOk, Fill;
    var ys := [x] + xs;
    assert ys[0] == x;
    if xs == [] {
      assert ys == [x] && ys[..0] == [];
    } else {
      FillAllOn(b, x, xs[..|xs| - 1]);
      assert ys[..|ys| - 1] == [x] + xs[..|xs| - 1];
    }
  }

  lemma {:induction false} SelectOk(xs: seq<Arrival>, k: BufId)
    requires AllOk(xs)
    ensures AllOk(Select(xs, k)) && forall i | 0 <= i < |Select(xs, k)| :: Belongs(Select(xs, k)[i].0, k)
  {
    if xs != [] {
      SelectOk(xs[1..], k);
    }
  }

  lemma {:induction false} OutcomesOfSize(m: Machine, xs: seq<Arrival>, k: BufId)
    requires Inv(m) && AllOk(xs)
    ensures |OutcomesOf(m, xs, k)| == |Select(xs, k)|
    decreases |xs|
  {
    hide Input, FragmentOk;
    if xs != [] {
      InputKeeps(m, xs[0].0, xs[0].1);
      OutcomesOfSize(Input(m, xs[0].0, xs[0].1).0, xs[1..], k);
    }
  }

  /** No part of the fragments before the last makes the buffer complete. */
  ghost predicate OpenUntilLast(b: Buffer, own: seq<Arrival>)
    requires |b.payload| == IP_MAX_BYTES && AllOk(own)
  {
    forall n | 0 < n < |own| :: !Complete(FillAll(b, own[..n]))
  }

  /** Every fragment but the last is held, and the last is answered as the buffer then stands. */
  ghost predicate AnsweredLast(os: seq<Outcome>, b: Buffer)
    requires |b.payload| == IP_MAX_BYTES
  {
    && os != [] && (forall i | 0 <= i < |os| - 1 :: os[i] == Held) && os[|os| - 1] == Answer(b)
  }

  /** However the fragments of other datagrams come in between, a live buffer is filled by its own fragments alone. */
  lemma {:induction false} FillsAlone(m: Machine, xs: seq<Arrival>, k: BufId)
    requires Inv(m) && AllOk(xs) && k in m.tree && Select(xs, k) != []
    requires AllOk(Select(xs, k)) && OpenUntilLast(m.buffers[m.tree[k]], Select(xs, k))
    ensures |OutcomesOf(m, xs, k)| == |Select(xs, k)|
    ensures AnsweredLast(OutcomesOf(m, xs, k), FillAll(m.buffers[m.tree[k]], Select(xs, k)))
    decreases |xs|
  {
    hide Input, Fill, FragmentOk, Complete, Answer, OutcomesOf, FillAll, OpenUntilLast, AllOk;
    var x, rest, i := xs[0], xs[1..], m.tree[k];
    var b := m.buffers[i];
    FirstArrival(m, xs, k);
    var (m1, o) := Input(m, x.0, x.1);
    if !Belongs(x.0, k) {
      OtherLeaves(m, k, x);
      FillsAlone(m1, rest, k);
    } else {
      OwnFills(m, x);
      SelectOk(rest, k);
      FillAllOn(b, x, Select(rest, k));
      OutcomesOfSize(m1, rest, k);
      if Select(rest, k) == [] {
        FillNone(Fill(b, x.0, x.1));
      } else {
        OpenOn(b, x, Select(rest, k));
        FillsAlone(m1, rest, k);
      }
    }
  }

  /** The first arrival of a run, and the rest. */
  lemma FirstArrival(m: Machine, xs: seq<Arrival>, k: BufId)
    requires Inv(m) && AllOk(xs) && xs != []
    ensures FragmentOk(xs[0].0, xs[0].1) && AllOk(xs[1..])
    ensures var (m1, o) := Input(m, xs[0].0, xs[0].1);
      && Inv(m1) && MachineRun(m, xs) == MachineRun(m1, xs[1..])
      && (if Belongs(xs[0].0, k) then
            Select(xs, k) == [xs[0]] + Select(xs[1..], k) && OutcomesOf(m, xs, k) == [o] + OutcomesOf(m1, xs[1..], k)
          else
            Select(xs, k) == Select(xs[1..], k) && OutcomesOf(m, xs, k) == OutcomesOf(m1, xs[1..], k))
  {
    hide Input, FragmentOk;
    InputKeeps(m, xs[0].0, xs[0].1);
  }

  lemma FillNone(b: Buffer)
    requires |b.payload| == IP_MAX_BYTES
    ensures FillAll(b, []) == b
  {
  }

  lemma OpenOn(b: Buffer, x: Arrival, rest: seq<Arrival>)
    requires |b.payload| == IP_MAX_BYTES && FragmentOk(x.0, x.1) && AllOk(rest) && AllOk([x] + rest)
    requires OpenUntilLast(b, [x] + rest) && rest != []
    ensures !Complete(Fill(b, x.0, x.1)) && OpenUntilLast(Fill(b, x.0, x.1), rest)
  {
    hide Fill, FragmentOk, Complete, FillAll;
    FillAllOn(b, x, []);
    FillNone(Fill(b, x.0, x.1));
    assert ([x] + rest)[..1] == [x] + [];
    forall n | 0 < n < |rest| ensures !Complete(FillAll(Fill(b, x.0, x.1), rest[..n])) {
      FillAllOn(b, x, rest[..n]);
      assert ([x] + rest)[..n + 1] == [x] + rest[..n];
    }
  }

  // ----- a datagram from its first fragment on

  /** The first fragment of a datagram takes the first free buffer, as if it had been taken before. */
  lemma {:induction false} Begins(m: Machine, xs: seq<Arrival>)
    requires Inv(m) && AllOk(xs) && xs != [] && IdOf(xs[0].0) !in m.tree && HasRoom(m, IdOf(xs[0].0))
    ensures var k, i := IdOf(xs[0].0), FirstFree(m.buffers, 0);
      var m1 := Acquire(m, xs[0].0).0;
      && i < BUFFERS && Inv(m1) && k in m1.tree && m1.tree[k] == i && m1.buffers[i] == Fresh(m.buffers[i], xs[0].0)
      && OutcomesOf(m, xs, k) == OutcomesOf(m1, xs, k) && MachineRun(m, xs) == MachineRun(m1, xs)
  {
    hide Fill, Complete, Fresh;
    var x := xs[0];
    AcquireKeeps(m, x.0);
    var m1 := Acquire(m, x.0).0;
    assert Input(m1, x.0, x.1) == Input(m, x.0, x.1);
  }

  /** The marks that a buffer keeps from earlier datagrams. */
  ghost function StaleIn(b: Buffer): set<nat> {
    FragmentMap.Stale(b.blocks)
  }

  /** A final fragment has come since the last one at offset 0, and every block that has not come is stale. */
  ghost predicate DoneWith(own: seq<Arrival>, d: seq<Byte>, stale: set<nat>) {
    FinalSince(own) && BlocksOf(0, |d|) - Covered(own) <= stale
  }

  /** The datagram in the blocks that came, and what the buffer held before in the others. */
  ghost function Merged(own: seq<Arrival>, d: seq<Byte>, payload: seq<Byte>): (r: seq<Byte>)
    requires |d| <= |payload|
    ensures |r| == |d| && forall p: nat | p < |d| :: r[p] == if p / 8 in Covered(own) then d[p] else payload[p]
  {
    seq(|d|, p requires 0 <= p < |d| => if p / 8 in Covered(own) then d[p] else payload[p])
  }

  lemma {:induction false} Untouched(b: Buffer, own: seq<Arrival>, d: seq<Byte>)
    requires |b.payload| == IP_MAX_BYTES && AllOk(own) && Pieces(own, d)
    ensures forall p: nat | p < IP_MAX_BYTES && p / 8 !in Covered(own) :: FillAll(b, own).payload[p] == b.payload[p]
  {
    hide FragmentOk, PieceOf;
    if own != [] {
      var before, x := own[..|own| - 1], own[|own| - 1];
      assert PieceOf(x, d);
      Untouched(b, before, d);
      forall p: nat | p < IP_MAX_BYTES && p / 8 !in Covered(own) ensures FillAll(b, own).payload[p] == b.payload[p] {
        OutsidePiece(FillAll(b, before), x, d, p);
      }
    }
  }

  lemma OutsidePiece(b: Buffer, x: Arrival, d: seq<Byte>, p: nat)
    requires |b.payload| == IP_MAX_BYTES && FragmentOk(x.0, x.1) && PieceOf(x, d)
    requires p < IP_MAX_BYTES && p / 8 !in BlocksOf(Offset(x.0), |x.1|)
    ensures Fill(b, x.0, x.1).payload[p] == b.payload[p]
  {
    assert !IsBlock(p / 8, Offset(x.0), |x.1|);
  }

  /** What a buffer that was just taken answers after some fragments of a datagram. */
  lemma AnswerWith(b: Buffer, h: IpHdr, own: seq<Arrival>, d: seq<Byte>)
    requires |b.payload| == IP_MAX_BYTES && d != [] && |d| <= IP_MAX_BYTES && AllOk(own) && Pieces(own, d)
    ensures var r := FillAll(Fresh(b, h), own);
      && (Complete(r) <==> DoneWith(own, d, StaleIn(b)))
      && Answer(r) == if DoneWith(own, d, StaleIn(b)) then Completed(Merged(own, d, b.payload)) else Held
  {
    hide FinalSince, Covered, FillAll, Pieces, FragmentOk, BlocksOf;
    StaleMarks(b, h, own, d);
    Untouched(Fresh(b, h), own, d);
    var r := FillAll(Fresh(b, h), own);
    if Complete(r) {
      assert r.payload[..|d|] == Merged(own, d, b.payload);
    }
  }

  /** A datagram of any size, its fragments interleaved with any others, in a buffer with any marks: it is answered at
    the first arrival that leaves no block missing but stale ones, and what is delivered then is the datagram in the
    blocks that came and the buffer's old contents in the others. */
  lemma {:induction false} ReassemblesAnySize(m: Machine, xs: seq<Arrival>, d: seq<Byte>)
    requires Inv(m) && AllOk(xs) && xs != [] && IdOf(xs[0].0) !in m.tree && HasRoom(m, IdOf(xs[0].0))
    requires d != [] && |d| <= IP_MAX_BYTES && Pieces(Select(xs, IdOf(xs[0].0)), d)
    requires var own := Select(xs, IdOf(xs[0].0));
      forall n | 0 < n < |own| :: !DoneWith(own[..n], d, StaleIn(m.buffers[FirstFree(m.buffers, 0)]))
    ensures var k, b := IdOf(xs[0].0), m.buffers[FirstFree(m.buffers, 0)];
      var own, os := Select(xs, k), OutcomesOf(m, xs, k);
      && |os| == |own| > 0 && (forall i | 0 <= i < |own| - 1 :: os[i] == Held)
      && os[|own| - 1] == if DoneWith(own, d, StaleIn(b)) then Completed(Merged(own, d, b.payload)) else Held
  {
    hide Select, OutcomesOf, FillAll, Fresh, Answer, DoneWith, Merged, Acquire, StaleIn, Pieces;
    var x, k, i := xs[0], IdOf(xs[0].0), FirstFree(m.buffers, 0);
    var b, own := m.buffers[i], Select(xs, k);
    FirstArrival(m, xs, k);
    SelectOk(xs, k);
    Begins(m, xs);
    FreshSize(b, x.0);
    forall n | 0 < n < |own| ensures !Complete(FillAll(Fresh(b, x.0), own[..n])) {
      PiecesBefore(own, d, n);
      AnswerWith(b, x.0, own[..n], d);
    }
    FillsAlone(Acquire(m, x.0).0, xs, k);
    AnswerWith(b, x.0, own, d);
  }

  lemma FreshSize(b: Buffer, h: IpHdr)
    ensures |Fresh(b, h).payload| == |b.payload|
  {
  }

  lemma PiecesBefore(own: seq<Arrival>, d: seq<Byte>, n: nat)
    requires Pieces(own, d) && AllOk(own) && n <= |own|
    ensures Pieces(own[..n], d) && AllOk(own[..n])
  {
    hide PieceOf, FragmentOk;
  }

  /** So a buffer without marks among the datagram's blocks delivers the datagram itself, as soon as it is done. */
  lemma CleanBuffer(own: seq<Arrival>, d: seq<Byte>, stale: set<nat>, payload: seq<Byte>)
    requires |d| <= |payload| && stale !! BlocksOf(0, |d|)
    ensures DoneWith(own, d, stale) <==> Done(own, d)
    ensures DoneWith(own, d, stale) ==> Merged(own, d, payload) == d
  {
    if DoneWith(own, d, stale) {
      forall p: nat | p < |d| ensures Merged(own, d, payload)[p] == d[p] {
        BlockOfByte(p, |d|);
      }
    }
  }

  // ----- what a datagram leaves behind

  ghost predicate AllOf(xs: seq<Arrival>, k: BufId) {
    forall i | 0 <= i < |xs| :: Belongs(xs[i].0, k)
  }

  lemma {:induction false} SelectAll(xs: seq<Arrival>, k: BufId)
    requires AllOf(xs, k)
    ensures Select(xs, k) == xs
  {
    if xs != [] {
      SelectAll(xs[1..], k);
    }
  }

  /** A live buffer that its fragments complete is left free as they filled it, and its key is gone. */
  lemma {:induction false} FillsOnly(m: Machine, xs: seq<Arrival>, k: BufId)
    requires Inv(m) && AllOk(xs) && AllOf(xs, k) && xs != [] && k in m.tree
    requires OpenUntilLast(m.buffers[m.tree[k]], xs) && Complete(FillAll(m.buffers[m.tree[k]], xs))
    ensures var i := m.tree[k];
      MachineRun(m, xs) == Machine(m.buffers[i := FillAll(m.buffers[i], xs).(reserved := false)], m.tree - {k})
    decreases |xs|
  {
    hide Input, Fill, FragmentOk, Complete, Answer, OutcomesOf, MachineRun, FillAll, OpenUntilLast, AllOk;
    var x, rest, i := xs[0], xs[1..], m.tree[k];
    var b := m.buffers[i];
    FirstArrival(m, xs, k);
    OwnFills(m, x);
    FillAllOn(b, x, rest);
    assert xs == [x] + rest;
    var m1 := Input(m, x.0, x.1).0;
    if rest == [] {
      FillNone(Fill(b, x.0, x.1));
      RunNone(m1, k);
    } else {
      OpenOn(b, x, rest);
      FillsOnly(m1, rest, k);
      assert m1.buffers[i := MachineRun(m, xs).buffers[i]] == m.buffers[i := MachineRun(m, xs).buffers[i]];
    }
  }

  lemma RunNone(m: Machine, k: BufId)
    requires Inv(m)
    ensures OutcomesOf(m, [], k) == [] && MachineRun(m, []) == m
  {
  }

  /** The first free buffer is still the first when it is free again. */
  lemma StillFirst(bs: seq<Buffer>, b: Buffer)
    requires FirstFree(bs, 0) < |bs| && !b.reserved
    ensures FirstFree(bs[FirstFree(bs, 0) := b], 0) == FirstFree(bs, 0)
  {
    var i := FirstFree(bs, 0);
    var bs' := bs[i := b];
    assert forall j | 0 <= j < i :: bs'[j].reserved;
    IsFirstFree(bs', i);
  }

  lemma IsFirstFree(bs: seq<Buffer>, i: nat)
    requires i < |bs| && !bs[i].reserved && forall j | 0 <= j < i :: bs[j].reserved
    ensures FirstFree(bs, 0) == i
  {
  }

  /** Where every block came, nothing of the old contents is left. */
  lemma MergedWhole(own: seq<Arrival>, d: seq<Byte>, payload: seq<Byte>)
    requires |d| <= |payload| && BlocksOf(0, |d|) <= Covered(own)
    ensures Merged(own, d, payload) == d
  {
    forall p: nat | p < |d| ensures Merged(own, d, payload)[p] == d[p] {
      BlockOfByte(p, |d|);
    }
  }

  lemma {:induction false} RunInv(m: Machine, xs: seq<Arrival>)
    requires Inv(m) && AllOk(xs)
    ensures Inv(MachineRun(m, xs))
    decreases |xs|
  {
    hide Input, FragmentOk;
    if xs != [] {
      InputKeeps(m, xs[0].0, xs[0].1);
      RunInv(Input(m, xs[0].0, xs[0].1).0, xs[1..]);
    }
  }

  /** A datagram that arrives whole is delivered, whatever the buffer held before, and its marks and its bytes stay in
    that buffer, which is again the first free one. */
  lemma {:induction false} LeavesMark(m: Machine, ys: seq<Arrival>, k: BufId, e: seq<Byte>)
    requires Inv(m) && AllOk(ys) && AllOf(ys, k) && ys != [] && k !in m.tree && HasRoom(m, k)
    requires e != [] && |e| <= IP_MAX_BYTES && Pieces(ys, e) && Done(ys, e)
    requires forall n | 0 < n < |ys| :: !DoneWith(ys[..n], e, StaleIn(m.buffers[FirstFree(m.buffers, 0)]))
    ensures var os := OutcomesOf(m, ys, k);
      |os| == |ys| && (forall n | 0 <= n < |ys| - 1 :: os[n] == Held) && os[|ys| - 1] == Completed(e)
    ensures var i, m' := FirstFree(m.buffers, 0), MachineRun(m, ys);
      && i < BUFFERS && Inv(m') && m'.tree == m.tree && FirstFree(m'.buffers, 0) == i
      && BlocksOf(0, |e|) <= m'.buffers[i].blocks && m'.buffers[i].payload[..|e|] == e
  {
    hide Input, Fill, Fresh, FragmentOk, Complete, Answer, OutcomesOf, MachineRun, FillAll, Merged, Acquire, StaleIn,
      Pieces, Covered, FinalSince, BlocksOf, Select;
    var i, x := FirstFree(m.buffers, 0), ys[0];
    var b, m1 := m.buffers[i], Acquire(m, ys[0].0).0;
    SelectAll(ys, k);
    ReassemblesAnySize(m, ys, e);
    MergedWhole(ys, e, b.payload);
    Begins(m, ys);
    FreshSize(b, x.0);
    forall n | 0 < n < |ys| ensures !Complete(FillAll(Fresh(b, x.0), ys[..n])) {
      PiecesBefore(ys, e, n);
      AnswerWith(b, x.0, ys[..n], e);
    }
    AnswerWith(b, x.0, ys, e);
    FillsOnly(m1, ys, k);
    RunInv(m, ys);
    FreedAgain(m, x.0, FillAll(Fresh(b, x.0), ys).(reserved := false));
    Filled(b, x.0, ys, e);
  }

  /** After the release the tree is as before, and the buffer is the first free one again. */
  lemma FreedAgain(m: Machine, h: IpHdr, b: Buffer)
    requires Inv(m) && IdOf(h) !in m.tree && HasRoom(m, IdOf(h)) && !b.reserved
    ensures var m1, i := Acquire(m, h).0, FirstFree(m.buffers, 0);
      && i < BUFFERS && |m1.buffers| == BUFFERS
      && m1.tree - {IdOf(h)} == m.tree && FirstFree(m1.buffers[i := b], 0) == i
  {
    var m1, i := Acquire(m, h).0, FirstFree(m.buffers, 0);
    StillFirst(m.buffers, b);
    assert m1.buffers[i := b] == m.buffers[i := b];
    assert m1.tree - {IdOf(h)} == m.tree;
  }

  lemma Filled(b: Buffer, h: IpHdr, ys: seq<Arrival>, e: seq<Byte>)
    requires |b.payload| == IP_MAX_BYTES && |e| <= IP_MAX_BYTES && AllOk(ys) && Pieces(ys, e)
    requires BlocksOf(0, |e|) <= Covered(ys)
    ensures var r := FillAll(Fresh(b, h), ys); BlocksOf(0, |e|) <= r.blocks && r.payload[..|e|] == e
  {
    hide FillAll, Fresh, FragmentOk, Pieces, Covered;
    FreshSize(b, h);
    FilledWith(b, h, ys, e);
    forall p: nat | p < |e| ensures FillAll(Fresh(b, h), ys).payload[p] == e[p] {
      BlockOfByte(p, |e|);
    }
  }
}
