/** A datagram delivered with bytes of an earlier one (src/ip_fragment.c:69-72, 173-179). */
module ReassemblyStale {
  import opened Checksum
  import opened IpHeader
  import opened IpSend
  import opened Reassembly
  import Map = FragmentMap
  import opened ReassemblyRuns
  import opened ReassemblyAnySize
  import opened FragmentRoundTrip

  // ----- where a byte of a datagram is

  lemma BlockInPiece(f: Fragment, d: seq<Byte>, hlen: nat, p: nat)
    requires IsPiece(f, d, hlen) && p < |d|
    ensures p / 8 in BlocksOf(f.off, |f.data|) <==> f.off <= p < f.off + |f.data|
  {
    assert IsBlock(p / 8, f.off, |f.data|) <==> f.off / 8 <= p / 8 < f.off / 8 + (|f.data| + 7) / 8;
  }

  /** Fragments before another end before it begins. */
  lemma {:induction false} PiecesRise(fs: seq<Fragment>, d: seq<Byte>, hlen: nat, i: nat, j: nat)
    requires IsCut(fs, d, hlen) && i < j < |fs|
    ensures fs[i].off + |fs[i].data| <= fs[j].off
  {
    hide IsPiece;
    if i < j - 1 {
      PiecesRise(fs, d, hlen, i, j - 1);
    }
    assert fs[j - 1 + 1].off == fs[j - 1].off + |fs[j - 1].data|;
  }

  /** Every byte is in one of the fragments before number n, up to where that one begins. */
  lemma {:induction false} FindPiece(fs: seq<Fragment>, d: seq<Byte>, hlen: nat, p: nat, n: nat) returns (i: nat)
    requires IsCut(fs, d, hlen) && 0 < n <= |fs| && fs[0].off == 0 && p < fs[n - 1].off + |fs[n - 1].data|
    ensures i < n && fs[i].off <= p < fs[i].off + |fs[i].data|
  {
    hide IsPiece;
    if fs[n - 1].off <= p {
      i := n - 1;
    } else {
      assert n > 1 && fs[n - 2 + 1].off == fs[n - 2].off + |fs[n - 2].data|;
      i := FindPiece(fs, d, hlen, p, n - 1);
    }
  }

  lemma {:induction false} CoveredIff(xs: seq<Arrival>, b: nat)
    ensures b in Covered(xs) <==> exists n :: 0 <= n < |xs| && b in BlocksOf(Offset(xs[n].0), |xs[n].1|)
  {
    hide BlocksOf;
    if xs != [] {
      var before, x := xs[..|xs| - 1], xs[|xs| - 1];
      CoveredIff(before, b);
      if n :| 0 <= n < |xs| && b in BlocksOf(Offset(xs[n].0), |xs[n].1|) {
        assert n < |before| ==> before[n] == xs[n];
      }
      if n :| 0 <= n < |before| && b in BlocksOf(Offset(before[n].0), |before[n].1|) {
        assert before[n] == xs[n];
      }
    }
  }

  // ----- all fragments but one

  /** Fragment i of those that are left. */
  function Kept(fs: seq<Fragment>, j: nat, i: nat): Fragment
    requires i + 1 < |fs|
  {
    if i < j then fs[i] else fs[i + 1]
  }

  predicate Carries(x: Arrival, f: Fragment) {
    Offset(x.0) == f.off && x.1 == f.data && MoreFragments(x.0) == f.more
  }

  function Without(fs: seq<Fragment>, j: nat): seq<Fragment>
    requires j < |fs|
  {
    fs[..j] + fs[j + 1..]
  }

  lemma WithoutAt(fs: seq<Fragment>, j: nat)
    requires j < |fs|
    ensures |Without(fs, j)| == |fs| - 1
    ensures forall i | 0 <= i < |fs| - 1 :: Without(fs, j)[i] == Kept(fs, j, i)
  {
  }

  /** The arrivals of a datagram of which fragment j is lost. */
  ghost predicate LostOne(xs: seq<Arrival>, fs: seq<Fragment>, d: seq<Byte>, hlen: nat, j: nat) {
    && IsCut(fs, d, hlen) && 0 < j < |fs| - 1 && fs[0].off == 0 && |xs| == |fs| - 1
    && forall i | 0 <= i < |xs| :: Carries(xs[i], Kept(fs, j, i))
  }

  /** Its blocks come but for those of the lost fragment. */
  lemma CoveredButOne(xs: seq<Arrival>, fs: seq<Fragment>, d: seq<Byte>, hlen: nat, j: nat, p: nat)
    requires LostOne(xs, fs, d, hlen, j) && p < |d|
    ensures p / 8 in Covered(xs) <==> !(fs[j].off <= p < fs[j].off + |fs[j].data|)
  {
    hide Covered, BlocksOf, IsCut, LostOne, IsPiece;
    LostCut(xs, fs, d, hlen, j);
    CoveredIff(xs, p / 8);
    LastEnds(fs, d, hlen);
    var i := FindPiece(fs, d, hlen, p, |fs|);
    if i != j {
      var n := if i < j then i else i - 1;
      LostAt(xs, fs, d, hlen, j, n);
      BlockInPiece(fs[i], d, hlen, p);
      Apart(fs, d, hlen, i, j, p);
    } else {
      forall n | 0 <= n < |xs| ensures p / 8 !in BlocksOf(Offset(xs[n].0), |xs[n].1|) {
        var q := if n < j then n else n + 1;
        LostAt(xs, fs, d, hlen, j, n);
        BlockInPiece(fs[q], d, hlen, p);
        Apart(fs, d, hlen, j, q, p);
      }
    }
  }

  lemma LostCut(xs: seq<Arrival>, fs: seq<Fragment>, d: seq<Byte>, hlen: nat, j: nat)
    requires LostOne(xs, fs, d, hlen, j)
    ensures IsCut(fs, d, hlen) && 0 < j < |fs| - 1 && fs[0].off == 0 && |xs| == |fs| - 1
  {
  }

  lemma LostAt(xs: seq<Arrival>, fs: seq<Fragment>, d: seq<Byte>, hlen: nat, j: nat, n: nat)
    requires LostOne(xs, fs, d, hlen, j) && n < |xs|
    ensures |fs| == |xs| + 1
    ensures var f := fs[if n < j then n else n + 1];
      && Offset(xs[n].0) == f.off && xs[n].1 == f.data && MoreFragments(xs[n].0) == f.more && IsPiece(f, d, hlen)
  {
    hide IsPiece;
    assert Carries(xs[n], Kept(fs, j, n));
    assert IsPiece(fs[if n < j then n else n + 1], d, hlen);
  }

  lemma LastEnds(fs: seq<Fragment>, d: seq<Byte>, hlen: nat)
    requires IsCut(fs, d, hlen) && fs != []
    ensures fs[|fs| - 1].off + |fs[|fs| - 1].data| == |d|
  {
    assert IsPiece(fs[|fs| - 1], d, hlen);
  }

  lemma Apart(fs: seq<Fragment>, d: seq<Byte>, hlen: nat, i: nat, j: nat, p: nat)
    requires IsCut(fs, d, hlen) && i < |fs| && j < |fs| && i != j && fs[i].off <= p < fs[i].off + |fs[i].data|
    ensures !(fs[j].off <= p < fs[j].off + |fs[j].data|)
  {
    if i < j {
      PiecesRise(fs, d, hlen, i, j);
    } else {
      PiecesRise(fs, d, hlen, j, i);
    }
  }

  /** Not done, but for marks that were there before: and then only at the last arrival. */
  lemma LostOneDone(xs: seq<Arrival>, fs: seq<Fragment>, d: seq<Byte>, hlen: nat, j: nat)
    requires LostOne(xs, fs, d, hlen, j)
    ensures Pieces(xs, d) && d != [] && FinalSince(xs) && !Done(xs, d)
    ensures forall n | 0 < n < |xs| :: !FinalSince(xs[..n])
  {
    hide IsPiece, IsCut, LostOne, Covered, BlocksOf;
    LostCut(xs, fs, d, hlen, j);
    forall n | 0 <= n < |xs|
      ensures PieceOf(xs[n], d) && (MoreFragments(xs[n].0) <==> n < |xs| - 1) && (n > 0 ==> Offset(xs[n].0) > 0)
    {
      LostPiece(xs, fs, d, hlen, j, n);
    }
    forall n | 0 < n < |xs| ensures !FinalSince(xs[..n]) {
      NoFinal(xs[..n]);
    }
    FinalNow(xs);
    Inner(fs, d, hlen, j);
    CoveredButOne(xs, fs, d, hlen, j, fs[j].off);
    BlockOfByte(fs[j].off, |d|);
  }

  lemma FinalNow(xs: seq<Arrival>)
    requires xs != [] && Offset(xs[|xs| - 1].0) > 0 && !MoreFragments(xs[|xs| - 1].0)
    ensures FinalSince(xs)
  {
  }

  /** A fragment that is neither the first nor the last is not empty and ends before the datagram does. */
  lemma Inner(fs: seq<Fragment>, d: seq<Byte>, hlen: nat, j: nat)
    requires IsCut(fs, d, hlen) && j < |fs| - 1
    ensures |fs[j].data| > 0 && fs[j].off + |fs[j].data| < |d|
  {
    assert IsPiece(fs[j], d, hlen);
  }

  lemma LostPiece(xs: seq<Arrival>, fs: seq<Fragment>, d: seq<Byte>, hlen: nat, j: nat, n: nat)
    requires LostOne(xs, fs, d, hlen, j) && n < |xs|
    ensures PieceOf(xs[n], d) && (MoreFragments(xs[n].0) <==> n < |xs| - 1) && (n > 0 ==> Offset(xs[n].0) > 0)
  {
    LostCut(xs, fs, d, hlen, j);
    LostAt(xs, fs, d, hlen, j, n);
    var q := if n < j then n else n + 1;
    if q > 0 {
      Inner(fs, d, hlen, 0);
      PiecesRise(fs, d, hlen, 0, q);
    }
  }

  /** What is delivered: the lost part is what the buffer held before. */
  lemma MergedButOne(xs: seq<Arrival>, fs: seq<Fragment>, d: seq<Byte>, hlen: nat, j: nat,
      payload: seq<Byte>, e: seq<Byte>)
    requires LostOne(xs, fs, d, hlen, j) && |d| <= |e| <= |payload| && payload[..|e|] == e
    ensures var a, b := fs[j].off, fs[j].off + |fs[j].data|;
      a <= b <= |d| && Merged(xs, d, payload) == d[..a] + e[a..b] + d[b..]
  {
    hide IsPiece, IsCut, LostOne, Covered, Merged;
    LostCut(xs, fs, d, hlen, j);
    Inner(fs, d, hlen, j);
    var a, b := fs[j].off, fs[j].off + |fs[j].data|;
    var r, t := Merged(xs, d, payload), d[..a] + e[a..b] + d[b..];
    forall p: nat | p < |d| ensures r[p] == t[p] {
      CoveredButOne(xs, fs, d, hlen, j, p);
      assert payload[p] == payload[..|e|][p];
    }
  }

  /** The missing blocks are among the marks that an earlier datagram, at least as long, has left. */
  lemma MissingAreStale(xs: seq<Arrival>, fs: seq<Fragment>, d: seq<Byte>, hlen: nat, j: nat, blocks: set<nat>, n: nat)
    requires LostOne(xs, fs, d, hlen, j) && fs[j].off >= 16384
    requires |d| <= n && BlocksOf(0, n) <= blocks
    ensures BlocksOf(0, |d|) - Covered(xs) <= Map.Stale(blocks)
  {
    hide Covered, LostOne;
    forall i | i in BlocksOf(0, |d|) - Covered(xs) ensures i in Map.Stale(blocks) {
      assert IsBlock(i, 0, |d|) && IsBlock(i, 0, n);
      CoveredButOne(xs, fs, d, hlen, j, 8 * i);
    }
  }

  // ----- the delivery

  /** What arrives of a datagram sent in order. */
  ghost function WholeArrivals(o: Order, h: IpHdr, buf: seq<Byte>, e: seq<Byte>): seq<Arrival>
    requires Sendable(h, buf, e)
  {
    CutIsFaithful(e, Hlen(h), 0);
    Arrivals(o, h, buf, Cut(e, Hlen(h), 0), e)
  }

  /** And when fragment j is lost. */
  ghost function GapArrivals(o: Order, h: IpHdr, buf: seq<Byte>, d: seq<Byte>, j: nat): seq<Arrival>
    requires Sendable(h, buf, d) && j < |Cut(d, Hlen(h), 0)|
  {
    WithoutPieces(d, Hlen(h), j);
    Arrivals(o, h, buf, Without(Cut(d, Hlen(h), 0), j), d)
  }

  lemma WithoutPieces(d: seq<Byte>, hlen: nat, j: nat)
    requires hlen <= 60 && hlen % 4 == 0 && j < |Cut(d, hlen, 0)|
    ensures var fs := Cut(d, hlen, 0);
      && |Without(fs, j)| == |fs| - 1 && IsCut(fs, d, hlen) && fs[0].off == 0
      && forall i | 0 <= i < |Without(fs, j)| :: IsPiece(Without(fs, j)[i], d, hlen)
  {
    hide IsPiece, Cut;
    CutIsFaithful(d, hlen, 0);
    WithoutAt(Cut(d, hlen, 0), j);
  }

  lemma GapIsLostOne(o: Order, h: IpHdr, buf: seq<Byte>, d: seq<Byte>, j: nat)
    requires Sendable(h, buf, d) && 0 < j < |Cut(d, Hlen(h), 0)| - 1
    ensures var xs := GapArrivals(o, h, buf, d, j);
      AllOk(xs) && AllOf(xs, IdOf(h)) && LostOne(xs, Cut(d, Hlen(h), 0), d, Hlen(h), j)
  {
    hide IsPiece, Cut, IsCut, Without, Arrivals, FragmentOk, Kept;
    var fs, xs := Cut(d, Hlen(h), 0), GapArrivals(o, h, buf, d, j);
    WithoutPieces(d, Hlen(h), j);
    WithoutAt(fs, j);
    forall i | 0 <= i < |xs|
      ensures Carries(xs[i], Kept(fs, j, i)) && FragmentOk(xs[i].0, xs[i].1) && IdOf(xs[i].0) == IdOf(h)
    {
      ArrivalAt(o, h, buf, Without(fs, j), d, i);
    }
  }

  /** In a buffer that still has the marks and the bytes of e, the rest of d is delivered with a part of e. */
  lemma {:induction false} GapDelivered(m: Machine, o: Order, h: IpHdr, buf: seq<Byte>, d: seq<Byte>, j: nat,
      e: seq<Byte>)
    requires Inv(m) && IdOf(h) !in m.tree && HasRoom(m, IdOf(h)) && Sendable(h, buf, d)
    requires 0 < j < |Cut(d, Hlen(h), 0)| - 1 && Cut(d, Hlen(h), 0)[j].off >= 16384
    requires |d| <= |e| <= IP_MAX_BYTES
    requires var b := m.buffers[FirstFree(m.buffers, 0)]; BlocksOf(0, |e|) <= b.blocks && b.payload[..|e|] == e
    ensures var xs, f := GapArrivals(o, h, buf, d, j), Cut(d, Hlen(h), 0)[j];
      && AllOk(xs) && !Done(xs, d) && xs != []
      && var os := OutcomesOf(m, xs, IdOf(h));
      && |os| == |xs| && (forall i | 0 <= i < |xs| - 1 :: os[i] == Held)
      && |f.data| > 0 && f.off + |f.data| <= |d|
      && os[|xs| - 1] == Completed(d[..f.off] + e[f.off..f.off + |f.data|] + d[f.off + |f.data|..])
  {
    hide Cut, GapArrivals, OutcomesOf, AllOk, Pieces, Done, FinalSince, Covered, BlocksOf, Merged, LostOne, IsCut,
      IsPiece, FirstFree, Map.Stale, Select;
    var xs, fs, hlen := GapArrivals(o, h, buf, d, j), Cut(d, Hlen(h), 0), Hlen(h);
    var b := m.buffers[FirstFree(m.buffers, 0)];
    GapIsLostOne(o, h, buf, d, j);
    LostCut(xs, fs, d, hlen, j);
    LostOneDone(xs, fs, d, hlen, j);
    SelectAll(xs, IdOf(h));
    MissingAreStale(xs, fs, d, hlen, j, b.blocks, |e|);
    ReassemblesAnySize(m, xs, d);
    MergedButOne(xs, fs, d, hlen, j, b.payload, e);
    Inner(fs, d, hlen, j);
  }

  /** A datagram e comes whole, sent in order.  Then come the fragments of a datagram d, no longer than e, without one
    that lies beyond byte 16384 and is not the last.  Both are delivered, the second with that part of the first. */
  lemma {:induction false} StaleDelivery(m: Machine, o: Order, h: IpHdr, buf: seq<Byte>, e: seq<Byte>,
      h': IpHdr, buf': seq<Byte>, d: seq<Byte>, j: nat)
    requires Inv(m) && IdOf(h) !in m.tree && IdOf(h') !in m.tree && HasRoom(m, IdOf(h))
    requires Sendable(h, buf, e) && Sendable(h', buf', d) && |Cut(e, Hlen(h), 0)| >= 2 && |d| <= |e|
    requires 0 < j < |Cut(d, Hlen(h'), 0)| - 1 && Cut(d, Hlen(h'), 0)[j].off >= 16384
    ensures var ys, xs := WholeArrivals(o, h, buf, e), GapArrivals(o, h', buf', d, j);
      && AllOk(ys) && AllOk(xs) && !Done(xs, d) && ys != [] && xs != []
      && |OutcomesOf(m, ys, IdOf(h))| == |ys| && OutcomesOf(m, ys, IdOf(h))[|ys| - 1] == Completed(e)
      && var m' := MachineRun(m, ys);
      && Inv(m')
      && var os, f := OutcomesOf(m', xs, IdOf(h')), Cut(d, Hlen(h'), 0)[j];
      && |os| == |xs| && (forall i | 0 <= i < |xs| - 1 :: os[i] == Held)
      && |f.data| > 0 && f.off + |f.data| <= |d|
      && os[|xs| - 1] == Completed(d[..f.off] + e[f.off..f.off + |f.data|] + d[f.off + |f.data|..])
  {
    hide Cut, Arrivals, GapArrivals, OutcomesOf, MachineRun, AllOk, Pieces, Done, BlocksOf, IsPiece, DoneWith, StaleIn;
    SentInOrder(m, o, h, buf, e);
    var ys := WholeArrivals(o, h, buf, e);
    LeavesMark(m, ys, IdOf(h), e);
    GapDelivered(MachineRun(m, ys), o, h', buf', d, j, e);
  }

  /** Such fragments exist: of 20000 bytes behind a header of 20, sent in 14 packets, number 12 at 17664 is one. */
  lemma SomeGap(d: seq<Byte>)
    requires |d| == 20000
    ensures |Cut(d, 20, 0)| == 14 && Cut(d, 20, 0)[12].off == 17664 >= 16384
  {
    hide Cut;
    assert OffRound(ETHER_DATA_LEN - 20 - 8) == 1472;
    StepsTimes(0, 1472, 12);
    StepsTimes(0, 1472, 13);
    StepsTimes(0, 1472, 14);
    CutSizes(d, 20, 0, 12);
    CutSizes(d, 20, 0, 13);
    CutSizes(d, 20, 0, 14);
  }
}
