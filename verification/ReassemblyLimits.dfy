/** Where reassembly falls short of section 3.2 of RFC 791, and exactly when.

  A fragment at offset 0 makes the code forget the length (src/ip_fragment.c:165-168), and a reused buffer
  keeps the marks of blocks 2048 and up (src/ip_fragment.c:69-72). */
module ReassemblyLimits {
  import opened Checksum
  import opened IpHeader
  import opened Reassembly
  import opened ReassemblyRuns

  // ----- a final fragment before the first

  /** The fragments are all those of a datagram, the one at offset 0 and the final one each once. */
  ghost predicate EachOnce(own: seq<Arrival>, d: seq<Byte>, first: nat, last: nat) {
    && d != [] && Pieces(own, d) && BlocksOf(0, |d|) <= Covered(own) && first < |own| && last < |own|
    && (forall i | 0 <= i < |own| :: Offset(own[i].0) == 0 <==> i == first)
    && (forall i | 0 <= i < |own| :: !MoreFragments(own[i].0) <==> i == last)
  }

  lemma AlsoLater(own: seq<Arrival>, d: seq<Byte>, first: nat, last: nat)
    requires EachOnce(own, d, first, last)
    ensures forall i | 0 <= i < |own| :: !MoreFragments(own[i].0) && Offset(own[i].0) > 0 <==> i == last
    ensures first != last
  {
    assert PieceOf(own[first], d);
    assert PieceOf(own[last], d);
  }

  /** Without the fragment at offset 0 the first block is missing. */
  lemma {:induction false} NoFirstBlock(xs: seq<Arrival>)
    requires forall i | 0 <= i < |xs| :: Offset(xs[i].0) != 0
    ensures 0 !in Covered(xs)
  {
    if xs != [] {
      var x := xs[|xs| - 1];
      NoFirstBlock(xs[..|xs| - 1]);
      assert !IsBlock(0, Offset(x.0), |x.1|);
    }
  }

  /** When the final fragment comes first the datagram is not done at any time. */
  lemma NeverDone(own: seq<Arrival>, d: seq<Byte>, first: nat, last: nat, n: nat)
    requires EachOnce(own, d, first, last) && last < first && n <= |own|
    ensures !Done(own[..n], d)
  {
    hide Covered, FinalSince;
    AlsoLater(own, d, first, last);
    FinalByThen(own, first, last, n);
    if n <= first {
      NoFirstBlock(own[..n]);
      assert IsBlock(0, 0, |d|);
    }
  }

  lemma DoneInTheEnd(own: seq<Arrival>, d: seq<Byte>, first: nat, last: nat)
    requires EachOnce(own, d, first, last) && first < last
    ensures Done(own, d)
  {
    AlsoLater(own, d, first, last);
    FirstBeforeFinal(own, first, last);
  }

  lemma {:induction false} AlonePrefix(a: Alone, xs: seq<Arrival>, n: nat)
    requires n <= |xs|
    ensures |AloneOutcomes(a, xs)| == |xs| && AloneOutcomes(a, xs[..n]) == AloneOutcomes(a, xs)[..n]
    decreases |xs|
  {
    AppendAlone(a, xs, (IpHdr(0, 0, 0, 0, 0, 0, 0, 0, 0, 0), []));
    if n < |xs| {
      var before, x := xs[..|xs| - 1], xs[|xs| - 1];
      assert xs == before + [x] && before[..n] == xs[..n];
      AppendAlone(a, before, x);
      AlonePrefix(a, before, n);
    } else {
      assert xs[..n] == xs;
    }
  }

  /** The first time that the datagram is done. */
  lemma FirstDone(own: seq<Arrival>, d: seq<Byte>) returns (n: nat)
    requires own != [] && Done(own, d)
    ensures 0 < n <= |own| && Done(own[..n], d) && forall k | 0 < k < n :: !Done(own[..k], d)
  {
    hide Done;
    n := 1;
    assert own[..|own|] == own;
    while !Done(own[..n], d)
      invariant 0 < n <= |own| && forall k | 0 < k < n :: !Done(own[..k], d)
      decreases |own| - n
    {
      n := n + 1;
    }
  }

  /** All fragments of a datagram, the first and the final one each once, among fragments of others: the datagram is
    delivered if and only if the first comes before the final one. */
  lemma {:induction false} OnceEach(m: Machine, xs: seq<Arrival>, k: BufId, d: seq<Byte>, first: nat, last: nat)
    requires Inv(m) && AllOk(xs) && OwnSmall(xs, k) && NeverFull(m, xs, k) && k !in m.tree
    requires EachOnce(Select(xs, k), d, first, last)
    ensures (exists i :: 0 <= i < |OutcomesOf(m, xs, k)| && OutcomesOf(m, xs, k)[i] == Completed(d)) <==> first < last
    ensures last < first ==> forall i | 0 <= i < |OutcomesOf(m, xs, k)| :: OutcomesOf(m, xs, k)[i] == Held
  {
    hide Select, OutcomesOf, AloneOutcomes, AloneRun, Done, Pieces, NeverFull, Agrees, Holds, Covered, Inv, AllOk,
      OwnSmall, MachineRun;
    var own, os := Select(xs, k), OutcomesOf(m, xs, k);
    var alone := AloneOutcomes(Nothing, own);
    Isolation(m, xs, k, Nothing);
    AlsoLater(own, d, first, last);
    if first < last {
      DoneInTheEnd(own, d, first, last);
      var n := FirstDone(own, d);
      PiecesUpTo(own, d, n);
      AnyOrder(own[..n], d);
      AlonePrefix(Nothing, own, n);
      assert AloneOutcomes(Nothing, own[..n])[n - 1] == alone[n - 1];
      AgreesWhole(os[n - 1], alone[n - 1], d);
    } else {
      forall n | 0 < n <= |own| ensures !Done(own[..n], d) {
        NeverDone(own, d, first, last, n);
      }
      assert own[..|own|] == own;
      AnyOrder(own, d);
      forall i | 0 <= i < |os| ensures os[i] == Held {
        AgreesWhole(os[i], alone[i], d);
      }
    }
  }

  lemma PiecesUpTo(own: seq<Arrival>, d: seq<Byte>, n: nat)
    requires Pieces(own, d) && n <= |own|
    ensures Pieces(own[..n], d) && forall j | 0 < j < n :: own[..n][..j] == own[..j]
  {
    hide PieceOf;
  }

  /** Sixty-four bytes in two fragments, the final one first: nothing is missing, and nothing is delivered. */
  lemma FinalComesFirst(h: IpHdr, d: seq<Byte>, m: Machine)
    requires |d| == 64 && Hlen(h) == 20 && Inv(m) && IdOf(h) !in m.tree && HasRoom(m, IdOf(h))
    ensures var x1 := (h.(len := 52, foff := 4), d[32..]);
      var x2 := (h.(len := 52, foff := FLAG_MF), d[..32]);
      && Pieces([x1, x2], d) && Covered([x1, x2]) == BlocksOf(0, |d|)
      && FragmentOk(x1.0, x1.1) && FragmentOk(x2.0, x2.1)
      && Input(m, x1.0, x1.1).1 == Held
      && (InputKeeps(m, x1.0, x1.1); Input(Input(m, x1.0, x1.1).0, x2.0, x2.1).1 == Held)
  {
    var x1 := (h.(len := 52, foff := 4), d[32..]);
    var x2 := (h.(len := 52, foff := FLAG_MF), d[..32]);
    TwoHalves();
    CoveredTwo(x1, x2);
    AcquireKeeps(m, x1.0);
    InputKeeps(m, x1.0, x1.1);
    HeldFirst(m, x1);
    var m' := Input(m, x1.0, x1.1).0;
    hide Fresh, Acquire, HasRoom, FirstFree, Overlay, IsBlock, BlocksOf;
    assert Fill(m'.buffers[m'.tree[IdOf(h)]], x2.0, x2.1).hdr.len == 0;
  }

  /** The final fragment alone is held. */
  lemma HeldFirst(m: Machine, x: Arrival)
    requires Inv(m) && FragmentOk(x.0, x.1) && IdOf(x.0) !in m.tree && HasRoom(m, IdOf(x.0)) && Offset(x.0) == 32
    ensures Input(m, x.0, x.1).1 == Held && IdOf(x.0) in Input(m, x.0, x.1).0.tree
  {
    var (m1, i) := Acquire(m, x.0);
    AcquireKeeps(m, x.0);
    var b := Fill(m1.buffers[i], x.0, x.1);
    assert !IsBlock(0, 32, |x.1|);
    assert b.hdr.len != 0 ==> IsBlock(0, 0, b.hdr.len) && 0 in BlocksOf(0, b.hdr.len);
    assert 0 !in b.blocks;
    assert Input(m, x.0, x.1).0.tree == m1.tree;
  }

  lemma CoveredTwo(x1: Arrival, x2: Arrival)
    ensures Covered([x1, x2]) == BlocksOf(Offset(x1.0), |x1.1|) + BlocksOf(Offset(x2.0), |x2.1|)
  {
    var xs := [x1, x2];
    assert xs[..1] == [x1];
    assert Covered([x1]) == Covered([x1][..0]) + BlocksOf(Offset(x1.0), |x1.1|);
  }

  lemma TwoHalves()
    ensures Offset(IpHdr(0, 0, 0, 0, 4, 0, 0, 0, 0, 0)) == 32
    ensures BlocksOf(32, 32) + BlocksOf(0, 32) == BlocksOf(0, 64)
  {
    forall i: nat ensures i in BlocksOf(0, 64) <==> i in BlocksOf(32, 32) || i in BlocksOf(0, 32) {
      assert IsBlock(i, 0, 64) <==> IsBlock(i, 32, 32) || IsBlock(i, 0, 32);
    }
  }

  // ----- marks that survive

  /** A buffer after some fragments. */
  ghost function FillAll(b: Buffer, xs: seq<Arrival>): (r: Buffer)
    requires |b.payload| == IP_MAX_BYTES && forall i | 0 <= i < |xs| :: FragmentOk(xs[i].0, xs[i].1)
    ensures |r.payload| == IP_MAX_BYTES
  {
    if xs == [] then b else Fill(FillAll(b, xs[..|xs| - 1]), xs[|xs| - 1].0, xs[|xs| - 1].1)
  }

  /** The length, the marks and the bytes after fragments of a datagram of any size. */
  lemma {:induction false} FilledWith(b: Buffer, h: IpHdr, xs: seq<Arrival>, d: seq<Byte>)
    requires |b.payload| == IP_MAX_BYTES && Pieces(xs, d)
    requires forall i | 0 <= i < |xs| :: FragmentOk(xs[i].0, xs[i].1)
    ensures var r := FillAll(Fresh(b, h), xs);
      && r.hdr.len == (if FinalSince(xs) then |d| else 0)
      && r.blocks == Covered(xs) + Fresh(b, h).blocks
      && (forall p: nat | p < |d| && p / 8 in Covered(xs) :: p < IP_MAX_BYTES && r.payload[p] == d[p])
  {
    hide BlocksOf, Fresh, IsFragment;
    FreshLen(b, h);
    if xs != [] {
      var before, x := xs[..|xs| - 1], xs[|xs| - 1];
      FilledWith(b, h, before, d);
      assert PieceOf(x, d);
      FillPiece(FillAll(Fresh(b, h), before), x, d);
    }
  }

  lemma FreshLen(b: Buffer, h: IpHdr)
    ensures Fresh(b, h).hdr.len == 0 && Fresh(b, h).payload == b.payload
  {
  }

  /** A piece leaves the bytes of the datagram right where they are right, and makes its own blocks right. */
  lemma FillPiece(b: Buffer, x: Arrival, d: seq<Byte>)
    requires |b.payload| == IP_MAX_BYTES && FragmentOk(x.0, x.1) && PieceOf(x, d)
    ensures var r := Fill(b, x.0, x.1);
      && (forall p: nat | p < |d| && p < IP_MAX_BYTES && b.payload[p] == d[p] :: r.payload[p] == d[p])
      && (forall p: nat | p < |d| && p / 8 in BlocksOf(Offset(x.0), |x.1|) :: p < IP_MAX_BYTES && r.payload[p] == d[p])
  {
    PieceBytes(x, d);
    forall p: nat | p < |d| && p / 8 in BlocksOf(Offset(x.0), |x.1|)
      ensures p < IP_MAX_BYTES && Fill(b, x.0, x.1).payload[p] == d[p]
    {
      assert p in BytesOf(Offset(x.0), x.1) && Within(p, Offset(x.0), |x.1|);
    }
  }

  /** A datagram of any size in any buffer: it is complete iff a final fragment has come since the last one at
    offset 0, and every block that has not come was marked in the buffer before. */
  lemma StaleMarks(b: Buffer, h: IpHdr, xs: seq<Arrival>, d: seq<Byte>)
    requires |b.payload| == IP_MAX_BYTES && d != [] && Pieces(xs, d)
    requires forall i | 0 <= i < |xs| :: FragmentOk(xs[i].0, xs[i].1)
    ensures var r := FillAll(Fresh(b, h), xs);
      && (Complete(r) <==> FinalSince(xs) && BlocksOf(0, |d|) - Covered(xs) <= Fresh(b, h).blocks)
      && (Complete(r) ==> r.hdr.len == |d|)
      && (forall p: nat | p < |d| && p / 8 in Covered(xs) :: p < IP_MAX_BYTES && r.payload[p] == d[p])
  {
    hide FinalSince, Covered, FillAll, Pieces, FragmentOk, Fresh, BlocksOf;
    FilledWith(b, h, xs, d);
  }

  /** So a buffer serves a datagram as it should whenever none of the datagram's blocks was left marked, in
    particular when the datagram has at most 16384 bytes. */
  lemma CleanEnough(b: Buffer, h: IpHdr, xs: seq<Arrival>, d: seq<Byte>)
    requires |b.payload| == IP_MAX_BYTES && d != [] && Pieces(xs, d)
    requires forall i | 0 <= i < |xs| :: FragmentOk(xs[i].0, xs[i].1)
    requires BlocksOf(0, |d|) !! Fresh(b, h).blocks || |d| <= 16384
    ensures var r := FillAll(Fresh(b, h), xs);
      (Complete(r) <==> Done(xs, d)) && (Complete(r) ==> r.hdr.len == |d| && r.payload[..|d|] == d)
  {
    hide FinalSince, Covered, FillAll, Pieces, FragmentOk;
    StaleMarks(b, h, xs, d);
    NoneStale(b, h, |d|);
    var r := FillAll(Fresh(b, h), xs);
    if Complete(r) {
      forall p: nat | p < |d| ensures p < IP_MAX_BYTES && r.payload[p] == d[p] {
        BlockOfByte(p, |d|);
      }
    }
  }

  lemma NoneStale(b: Buffer, h: IpHdr, n: nat)
    requires BlocksOf(0, n) !! Fresh(b, h).blocks || n <= 16384
    ensures BlocksOf(0, n) !! Fresh(b, h).blocks
  {
    forall i | i in BlocksOf(0, n) ensures i !in Fresh(b, h).blocks {
      assert IsBlock(i, 0, n);
    }
  }
}
