/** What reassembly achieves over whole runs (src/ip_fragment.c:69-206; section 3.2 of RFC 791). */
module ReassemblyRuns {
  import opened Checksum
  import opened IpHeader
  import opened Reassembly

  /** An arriving fragment: its header and its data. */
  type Arrival = (IpHdr, seq<Byte>)

  // ----- a datagram collected on its own

  /** What matters of a buffer: the known length, the marked blocks, and the bytes that have arrived. */
  datatype Collect = Collect(len: nat, blocks: set<nat>, bytes: map<nat, Byte>)

  datatype Alone = Nothing | Some(c: Collect)

  datatype AloneOutcome = Waits | Whole(c: Collect)

  const EMPTY: Collect := Collect(0, {}, map[])

  predicate Within(p: nat, off: nat, n: nat) {
    off <= p < off + n
  }

  function BytesOf(off: nat, rx: seq<Byte>): map<nat, Byte> {
    map p: nat | p < off + |rx| && Within(p, off, |rx|) :: rx[p - off]
  }

  function Gather(c: Collect, x: Arrival): Collect {
    var off := Offset(x.0);
    Collect(
      if off == 0 then 0 else if !MoreFragments(x.0) then |x.1| + off else c.len,
      c.blocks + BlocksOf(off, |x.1|),
      c.bytes + BytesOf(off, x.1))
  }

  predicate IsWhole(c: Collect) {
    c.len != 0 && BlocksOf(0, c.len) <= c.blocks
  }

  function AloneStep(a: Alone, x: Arrival): (Alone, AloneOutcome) {
    var c := Gather(if a.Some? then a.c else EMPTY, x);
    if IsWhole(c) then (Nothing, Whole(c)) else (Some(c), Waits)
  }

  function AloneRun(a: Alone, xs: seq<Arrival>): Alone
    decreases |xs|
  {
    if xs == [] then a else AloneRun(AloneStep(a, xs[0]).0, xs[1..])
  }

  function AloneOutcomes(a: Alone, xs: seq<Arrival>): seq<AloneOutcome>
    decreases |xs|
  {
    if xs == [] then [] else [AloneStep(a, xs[0]).1] + AloneOutcomes(AloneStep(a, xs[0]).0, xs[1..])
  }

  // ----- the machine with four buffers

  /** The fragment lies in the part of the bitmap that fragmap_init clears. */
  predicate Small(x: Arrival) {
    Offset(x.0) + |x.1| <= 16384
  }

  ghost predicate AllOk(xs: seq<Arrival>) {
    forall i | 0 <= i < |xs| :: FragmentOk(xs[i].0, xs[i].1)
  }

  /** The fragments of datagram k are small; those of others need not be. */
  ghost predicate OwnSmall(xs: seq<Arrival>, k: BufId) {
    forall i | 0 <= i < |xs| && Belongs(xs[i].0, k) :: Small(xs[i])
  }

  ghost function MachineRun(m: Machine, xs: seq<Arrival>): Machine
    requires Inv(m) && AllOk(xs)
    decreases |xs|
  {
    if xs == [] then m
    else
      InputKeeps(m, xs[0].0, xs[0].1);
      MachineRun(Input(m, xs[0].0, xs[0].1).0, xs[1..])
  }

  /** No fragment of datagram k finds all four buffers taken by other datagrams. */
  ghost predicate NeverFull(m: Machine, xs: seq<Arrival>, k: BufId)
    requires Inv(m) && AllOk(xs)
    decreases |xs|
  {
    xs == [] ||
    ((Belongs(xs[0].0, k) ==> HasRoom(m, k))
      && (InputKeeps(m, xs[0].0, xs[0].1); NeverFull(Input(m, xs[0].0, xs[0].1).0, xs[1..], k)))
  }

  /** The arrivals of one datagram, and what the machine answers to them. */
  ghost function Select(xs: seq<Arrival>, k: BufId): seq<Arrival> {
    if xs == [] then [] else (if Belongs(xs[0].0, k) then [xs[0]] else []) + Select(xs[1..], k)
  }

  ghost function OutcomesOf(m: Machine, xs: seq<Arrival>, k: BufId): seq<Outcome>
    requires Inv(m) && AllOk(xs)
    decreases |xs|
  {
    if xs == [] then []
    else
      InputKeeps(m, xs[0].0, xs[0].1);
      var (m1, o) := Input(m, xs[0].0, xs[0].1);
      (if Belongs(xs[0].0, k) then [o] else []) + OutcomesOf(m1, xs[1..], k)
  }

  // ----- isolation

  ghost predicate BufferIs(b: Buffer, c: Collect) {
    && |b.payload| == IP_MAX_BYTES && b.hdr.len == c.len <= 16384
    && (forall i | 0 <= i < CLEARED_BLOCKS :: i in b.blocks <==> i in c.blocks)
    && (forall i | i in c.blocks :: i < CLEARED_BLOCKS)
    && (forall p | p in c.bytes :: p < IP_MAX_BYTES && b.payload[p] == c.bytes[p])
  }

  /** The machine has of datagram k exactly what it would have if nothing else had arrived. */
  ghost predicate Matches(m: Machine, k: BufId, a: Alone)
    requires Inv(m)
  {
    && (k in m.tree <==> a.Some?)
    && (k in m.tree ==> BufferIs(m.buffers[m.tree[k]], a.c))
  }

  ghost predicate Agrees(o: Outcome, a: AloneOutcome) {
    match o
    case NoBuffer => false
    case Held => a.Waits?
    case Completed(data) =>
      a.Whole? && |data| == a.c.len && forall p | p in a.c.bytes && p < |data| :: data[p] == a.c.bytes[p]
  }

  lemma FillIs(b: Buffer, c: Collect, x: Arrival)
    requires BufferIs(b, c) && FragmentOk(x.0, x.1) && Small(x)
    ensures BufferIs(Fill(b, x.0, x.1), Gather(c, x))
    ensures Complete(Fill(b, x.0, x.1)) <==> IsWhole(Gather(c, x))
  {
    var b', c' := Fill(b, x.0, x.1), Gather(c, x);
    assert forall i | i in BlocksOf(Offset(x.0), |x.1|) :: i < CLEARED_BLOCKS;
    assert BufferIs(b', c');
    assert forall i | i in BlocksOf(0, c'.len) :: i < CLEARED_BLOCKS;
  }

  lemma FreshIs(b: Buffer, h: IpHdr)
    requires |b.payload| == IP_MAX_BYTES
    ensures BufferIs(Fresh(b, h), EMPTY)
  {
  }

  lemma OwnStep(m: Machine, a: Alone, x: Arrival)
    requires Inv(m) && FragmentOk(x.0, x.1) && Small(x) && HasRoom(m, IdOf(x.0)) && Matches(m, IdOf(x.0), a)
    ensures var (m', o) := Input(m, x.0, x.1);
      Inv(m') && Matches(m', IdOf(x.0), AloneStep(a, x).0) && Agrees(o, AloneStep(a, x).1)
  {
    var k := IdOf(x.0);
    var (m1, i) := Acquire(m, x.0);
    AcquireKeeps(m, x.0);
    InputKeeps(m, x.0, x.1);
    var c := if a.Some? then a.c else EMPTY;
    if k !in m.tree {
      FreshIs(m.buffers[i], x.0);
    }
    FillIs(m1.buffers[i], c, x);
    FillKeeps(m1, i, x.0, x.1);
  }

  lemma OtherStep(m: Machine, k: BufId, a: Alone, x: Arrival)
    requires Inv(m) && FragmentOk(x.0, x.1) && !Belongs(x.0, k) && Matches(m, k, a)
    ensures var m' := Input(m, x.0, x.1).0; Inv(m') && Matches(m', k, a)
  {
    InputKeeps(m, x.0, x.1);
    if HasRoom(m, IdOf(x.0)) {
      var (m1, i) := Acquire(m, x.0);
      AcquireKeeps(m, x.0);
      assert Matches(m1, k, a);
      assert k in m1.tree ==> m1.tree[k] != i;
    }
  }

  /** However the fragments of different datagrams are interleaved, each datagram's buffer evolves, and each of
    its fragments is answered, as if the others had not come. */
  lemma {:induction false} Isolation(m: Machine, xs: seq<Arrival>, k: BufId, a: Alone)
    requires Inv(m) && AllOk(xs) && OwnSmall(xs, k) && NeverFull(m, xs, k) && Matches(m, k, a)
    ensures Inv(MachineRun(m, xs)) && Matches(MachineRun(m, xs), k, AloneRun(a, Select(xs, k)))
    ensures |OutcomesOf(m, xs, k)| == |AloneOutcomes(a, Select(xs, k))|
    ensures forall i | 0 <= i < |OutcomesOf(m, xs, k)| ::
      Agrees(OutcomesOf(m, xs, k)[i], AloneOutcomes(a, Select(xs, k))[i])
    decreases |xs|
  {
    hide Input, Matches, AloneStep, Agrees, HasRoom, FragmentOk, Small;
    if xs != [] {
      var x := xs[0];
      InputKeeps(m, x.0, x.1);
      var m1 := Input(m, x.0, x.1).0;
      if Belongs(x.0, k) {
        OwnStep(m, a, x);
        Isolation(m1, xs[1..], k, AloneStep(a, x).0);
        assert Select(xs, k)[1..] == Select(xs[1..], k);
      } else {
        OtherStep(m, k, a, x);
        Isolation(m1, xs[1..], k, a);
        assert Select(xs, k) == Select(xs[1..], k);
        assert OutcomesOf(m, xs, k) == OutcomesOf(m1, xs[1..], k);
      }
    }
  }

  // ----- one datagram, its fragments in any order

  /** x is a fragment of the datagram d. */
  ghost predicate PieceOf(x: Arrival, d: seq<Byte>) {
    && IsFragment(x.0) && Offset(x.0) + |x.1| <= |d| && x.1 == d[Offset(x.0)..Offset(x.0) + |x.1|]
    && (MoreFragments(x.0) ==> |x.1| % 8 == 0)
    && (!MoreFragments(x.0) ==> Offset(x.0) + |x.1| == |d|)
  }

  ghost predicate Pieces(xs: seq<Arrival>, d: seq<Byte>) {
    forall i | 0 <= i < |xs| :: PieceOf(xs[i], d)
  }

  /** A final fragment has come, and no fragment with offset 0 since. */
  ghost predicate FinalSince(xs: seq<Arrival>) {
    if xs == [] then false
    else
      var x := xs[|xs| - 1];
      if Offset(x.0) == 0 then false else !MoreFragments(x.0) || FinalSince(xs[..|xs| - 1])
  }

  /** The blocks that have come. */
  ghost function Covered(xs: seq<Arrival>): set<nat> {
    if xs == [] then {}
    else Covered(xs[..|xs| - 1]) + BlocksOf(Offset(xs[|xs| - 1].0), |xs[|xs| - 1].1|)
  }

  ghost predicate Done(xs: seq<Arrival>, d: seq<Byte>) {
    FinalSince(xs) && BlocksOf(0, |d|) <= Covered(xs)
  }

  ghost function GatherAll(xs: seq<Arrival>): Collect {
    if xs == [] then EMPTY else Gather(GatherAll(xs[..|xs| - 1]), xs[|xs| - 1])
  }

  /** What has been gathered of d: its length if known, the covered blocks, and d's own bytes in them. */
  lemma {:induction false} Gathered(xs: seq<Arrival>, d: seq<Byte>)
    requires Pieces(xs, d)
    ensures var c := GatherAll(xs);
      && c.len == (if FinalSince(xs) then |d| else 0) && c.blocks == Covered(xs)
      && (forall p | p in c.bytes :: p < |d| && c.bytes[p] == d[p])
      && (forall p: nat | p < |d| && p / 8 in c.blocks :: p in c.bytes)
  {
    if xs != [] {
      var before, x := xs[..|xs| - 1], xs[|xs| - 1];
      assert PieceOf(x, d);
      Gathered(before, d);
      PieceBytes(x, d);
    }
  }

  /** A fragment brings all bytes of its blocks. */
  lemma PieceBytes(x: Arrival, d: seq<Byte>)
    requires PieceOf(x, d)
    ensures var b := BytesOf(Offset(x.0), x.1);
      && (forall p | p in b :: p < |d| && b[p] == d[p])
      && (forall p: nat | p < |d| && p / 8 in BlocksOf(Offset(x.0), |x.1|) :: p in b)
  {
    var off, n := Offset(x.0), |x.1|;
    forall p: nat | p < |d| && p / 8 in BlocksOf(off, n) ensures p in BytesOf(off, x.1) {
      assert IsBlock(p / 8, off, n);
      assert off % 8 == 0;
      assert Within(p, off, n);
    }
  }

  /** The code's test for completeness is the intended one. */
  lemma WholeIffDone(xs: seq<Arrival>, d: seq<Byte>)
    requires Pieces(xs, d) && d != []
    ensures IsWhole(GatherAll(xs)) <==> Done(xs, d)
    ensures Done(xs, d) ==> Holds(GatherAll(xs), d)
  {
    hide Pieces, FinalSince, Covered, GatherAll, BlocksOf;
    Gathered(xs, d);
    if Done(xs, d) {
      forall p: nat | p < |d| ensures p / 8 in BlocksOf(0, |d|) {
        BlockOfByte(p, |d|);
      }
    }
  }

  lemma BlockOfByte(p: nat, n: nat)
    requires p < n
    ensures p / 8 in BlocksOf(0, n)
  {
    assert IsBlock(p / 8, 0, n);
  }

  /** While the datagram is not done, the fragments are kept. */
  lemma {:induction false} KeptAlone(xs: seq<Arrival>, d: seq<Byte>)
    requires Pieces(xs, d) && d != [] && xs != []
    requires forall n | 0 < n <= |xs| :: !Done(xs[..n], d)
    ensures AloneRun(Nothing, xs) == Some(GatherAll(xs))
    ensures forall i | 0 <= i < |xs| :: i < |AloneOutcomes(Nothing, xs)| && AloneOutcomes(Nothing, xs)[i].Waits?
    ensures |AloneOutcomes(Nothing, xs)| == |xs|
  {
    hide Done, IsWhole, Gather, Pieces, AloneOutcomes, AloneRun, GatherAll;
    var before, x := xs[..|xs| - 1], xs[|xs| - 1];
    assert xs == before + [x] && xs[..|xs|] == xs;
    WholeIffDone(xs, d);
    AppendAlone(Nothing, before, x);
    GatherLast(xs);
    if before == [] {
      NoneAlone();
    } else {
      NotDoneBefore(xs, d);
      KeptAlone(before, d);
    }
  }

  lemma NotDoneBefore(xs: seq<Arrival>, d: seq<Byte>)
    requires Pieces(xs, d) && xs != [] && forall n | 0 < n < |xs| :: !Done(xs[..n], d)
    ensures var before := xs[..|xs| - 1];
      Pieces(before, d) && forall n | 0 < n <= |before| :: !Done(before[..n], d)
  {
    hide Done, PieceOf;
    var before := xs[..|xs| - 1];
    forall n | 0 < n <= |before| ensures !Done(before[..n], d) {
      assert before[..n] == xs[..n];
    }
  }

  lemma GatherLast(xs: seq<Arrival>)
    requires xs != []
    ensures GatherAll(xs) == Gather(GatherAll(xs[..|xs| - 1]), xs[|xs| - 1])
  {
  }

  lemma NoneAlone()
    ensures AloneRun(Nothing, []) == Nothing && AloneOutcomes(Nothing, []) == [] && GatherAll([]) == EMPTY
  {
  }

  lemma AppendAlone(a: Alone, xs: seq<Arrival>, x: Arrival)
    ensures AloneRun(a, xs + [x]) == AloneStep(AloneRun(a, xs), x).0
    ensures AloneOutcomes(a, xs + [x]) == AloneOutcomes(a, xs) + [AloneStep(AloneRun(a, xs), x).1]
    ensures |AloneOutcomes(a, xs)| == |xs|
    decreases |xs|
  {
    if xs == [] {
      assert xs + [x] == [x] && [x][1..] == [];
    } else {
      assert (xs + [x])[1..] == xs[1..] + [x];
      AppendAlone(AloneStep(a, xs[0]).0, xs[1..], x);
    }
  }

  /** Fragments of a datagram, in any order, repeated and overlapping at will, complete it at the first
    arrival that makes it done, and with exactly its bytes. */
  lemma AnyOrder(xs: seq<Arrival>, d: seq<Byte>)
    requires Pieces(xs, d) && d != [] && xs != []
    requires forall n | 0 < n < |xs| :: !Done(xs[..n], d)
    ensures var os := AloneOutcomes(Nothing, xs);
      && |os| == |xs| && (forall i | 0 <= i < |xs| - 1 :: os[i].Waits?)
      && (if Done(xs, d) then AloneRun(Nothing, xs) == Nothing && os[|xs| - 1].Whole? && Holds(os[|xs| - 1].c, d)
          else AloneRun(Nothing, xs).Some? && os[|xs| - 1].Waits?)
  {
    hide Done, IsWhole, Gather, Holds, Pieces, AloneOutcomes, AloneRun, GatherAll;
    var before, x := xs[..|xs| - 1], xs[|xs| - 1];
    assert xs == before + [x];
    AppendAlone(Nothing, before, x);
    GatherLast(xs);
    NotDoneBefore(xs, d);
    if before == [] {
      NoneAlone();
    } else {
      KeptAlone(before, d);
    }
    WholeIffDone(xs, d);
  }

  /** c has all bytes of d and no others. */
  ghost predicate Holds(c: Collect, d: seq<Byte>) {
    && c.len == |d| && (forall p: nat | p < |d| :: p in c.bytes && c.bytes[p] == d[p])
    && forall p | p in c.bytes :: p < |d|
  }

  // ----- the two together

  /** A datagram that is not known yet, its fragments interleaved with any others: the machine completes it at
    the first arrival that makes it done, and delivers exactly its bytes. */
  lemma Reassembles(m: Machine, xs: seq<Arrival>, k: BufId, d: seq<Byte>)
    requires Inv(m) && AllOk(xs) && OwnSmall(xs, k) && NeverFull(m, xs, k) && k !in m.tree
    requires var own := Select(xs, k);
      own != [] && Pieces(own, d) && d != [] && forall n | 0 < n < |own| :: !Done(own[..n], d)
    ensures var own, os := Select(xs, k), OutcomesOf(m, xs, k);
      && |os| == |own| && (forall i | 0 <= i < |own| - 1 :: os[i] == Held)
      && os[|own| - 1] == (if Done(own, d) then Completed(d) else Held)
  {
    hide Select, AloneOutcomes, AloneRun, Done, Pieces, Inv, NeverFull, OutcomesOf, MachineRun, OwnSmall, AllOk,
      Agrees, Holds;
    var own := Select(xs, k);
    Isolation(m, xs, k, Nothing);
    AnyOrder(own, d);
    forall i | 0 <= i < |own| {
      AgreesWhole(OutcomesOf(m, xs, k)[i], AloneOutcomes(Nothing, own)[i], d);
    }
  }

  lemma AgreesWhole(o: Outcome, a: AloneOutcome, d: seq<Byte>)
    requires Agrees(o, a)
    ensures a.Waits? ==> o == Held
    ensures a.Whole? && Holds(a.c, d) ==> o == Completed(d)
  {
  }

  // ----- the order that matters

  /** Of fragments that each come once, the one at offset 0 must come before the final one: a fragment at
    offset 0 makes the code forget the length. */
  lemma FirstBeforeFinal(xs: seq<Arrival>, first: nat, last: nat)
    requires first < |xs| && last < |xs|
    requires forall i | 0 <= i < |xs| :: Offset(xs[i].0) == 0 <==> i == first
    requires forall i | 0 <= i < |xs| :: !MoreFragments(xs[i].0) && Offset(xs[i].0) > 0 <==> i == last
    ensures FinalSince(xs) <==> first < last
  {
    FinalByThen(xs, first, last, |xs|);
    assert xs[..|xs|] == xs;
  }

  lemma FinalByThen(xs: seq<Arrival>, first: nat, last: nat, n: nat)
    requires first < |xs| && last < |xs| && n <= |xs|
    requires forall i | 0 <= i < |xs| :: Offset(xs[i].0) == 0 <==> i == first
    requires forall i | 0 <= i < |xs| :: !MoreFragments(xs[i].0) && Offset(xs[i].0) > 0 <==> i == last
    ensures FinalSince(xs[..n]) <==> last < n && !(last < first < n)
  {
    if n > 0 {
      FinalByThen(xs, first, last, n - 1);
      assert xs[..n][..n - 1] == xs[..n - 1];
    }
  }
}
