/** Reassembly of fragments (src/ip_fragment.c), section 3.2 of RFC 791, as a state machine on values.

  A packet buffer collects one datagram; four of them are found through a tree keyed by the buffer
  identifier.  FragmentInput.dfy shows that the code does what Input and Tick say. */
module Reassembly {
  import FragmentMap
  import opened Checksum
  import opened IpHeader

  const IP_MAX_BYTES: nat := 65535
  const BUFFERS: nat := 4
  const FRAGMENT_TLB: int := 15

  /** The blocks that fragmap_init leaves marked start here. */
  const CLEARED_BLOCKS: nat := FragmentMap.CLEARED_BLOCKS

  /** The buffer identifier of RFC 791, as packet_buf_cmp compares it. */
  datatype BufId = BufId(src: Addr, dst: Addr, proto: Byte, id: Word)

  function IdOf(h: IpHdr): BufId {
    BufId(h.src, h.dst, h.proto, h.id)
  }

  /** The four fields of section 3.2 of RFC 791 that tell the datagram of a fragment. */
  predicate Belongs(h: IpHdr, k: BufId) {
    h.src == k.src && h.dst == k.dst && h.proto == k.proto && h.id == k.id
  }

  /** Two headers differ in a field that tells datagrams apart. */
  predicate Differ(g: IpHdr, h: IpHdr) {
    g.src != h.src || g.dst != h.dst || g.proto != h.proto || g.id != h.id
  }

  /** Two headers have one identifier if and only if all four fields agree. */
  lemma IdOfIs(g: IpHdr, h: IpHdr, k: BufId)
    ensures IdOf(g) == IdOf(h) <==> g.src == h.src && g.dst == h.dst && g.proto == h.proto && g.id == h.id
    ensures IdOf(g) != IdOf(h) <==> Differ(g, h)
    ensures IdOf(h) == k <==> Belongs(h, k)
  {
  }

  /** A packet buffer: ip_hdr.len is the length of the datagram once it is known, or 0. */
  datatype Buffer = Buffer(reserved: bool, timer: int, hdr: IpHdr, blocks: set<nat>, payload: seq<Byte>)

  datatype Machine = Machine(buffers: seq<Buffer>, tree: map<BufId, nat>)

  datatype Outcome =
    | NoBuffer
    | Held
    | Completed(data: seq<Byte>)

  // ----- one buffer

  /** What ip_fragment_input takes for granted: the header is not longer than the packet, and the data fits the buffer.
    ip_input has checked that the packet has the length that its header says (src/ip.c:137-147). */
  predicate FragmentOk(h: IpHdr, rx: seq<Byte>) {
    Hlen(h) <= h.len && |rx| == h.len - Hlen(h) && Offset(h) + |rx| <= IP_MAX_BYTES
  }

  predicate IsFragment(h: IpHdr) {
    MoreFragments(h) || Offset(h) > 0
  }

  predicate IsBlock(i: nat, off: nat, n: nat) {
    off / 8 <= i < off / 8 + (n + 7) / 8
  }

  /** The blocks from a byte offset on that hold n bytes. */
  function BlocksOf(off: nat, n: nat): set<nat> {
    set i: nat | i < off / 8 + (n + 7) / 8 && IsBlock(i, off, n)
  }

  function Overlay(payload: seq<Byte>, off: nat, rx: seq<Byte>): (r: seq<Byte>)
    requires off + |rx| <= |payload|
    ensures |r| == |payload|
  {
    payload[..off] + rx + payload[off + |rx|..]
  }

  /** The length and header that a fragment leaves. */
  function NextHeader(was: IpHdr, h: IpHdr, n: nat): IpHdr
    requires Offset(h) + n <= IP_MAX_BYTES
  {
    if Offset(h) == 0 then h.(len := 0, foff := 0)
    else if !MoreFragments(h) then was.(len := n + Offset(h))
    else was
  }

  function Fill(b: Buffer, h: IpHdr, rx: seq<Byte>): (r: Buffer)
    requires FragmentOk(h, rx) && |b.payload| == IP_MAX_BYTES
    ensures |r.payload| == IP_MAX_BYTES
  {
    b.(payload := Overlay(b.payload, Offset(h), rx),
       blocks := b.blocks + BlocksOf(Offset(h), |rx|),
       hdr := NextHeader(b.hdr, h, |rx|))
  }

  predicate Complete(b: Buffer) {
    b.hdr.len != 0 && BlocksOf(0, b.hdr.len) <= b.blocks
  }

  /** A buffer as get_packet_buffer hands it out. */
  function Fresh(b: Buffer, h: IpHdr): Buffer {
    b.(reserved := true, timer := FRAGMENT_TLB, hdr := h.(len := 0, foff := 0),
       blocks := FragmentMap.Stale(b.blocks))
  }

  // ----- the machine

  ghost predicate Inv(m: Machine) {
    && |m.buffers| == BUFFERS
    && (forall i | 0 <= i < BUFFERS :: |m.buffers[i].payload| == IP_MAX_BYTES)
    && (forall k | k in m.tree ::
          m.tree[k] < BUFFERS && m.buffers[m.tree[k]].reserved && IdOf(m.buffers[m.tree[k]].hdr) == k)
    && (forall i | 0 <= i < BUFFERS && m.buffers[i].reserved ::
          IdOf(m.buffers[i].hdr) in m.tree && m.tree[IdOf(m.buffers[i].hdr)] == i)
  }

  /** The first buffer that is not reserved, from i on. */
  function FirstFree(bs: seq<Buffer>, i: nat): (r: nat)
    requires i <= |bs|
    ensures i <= r <= |bs| && (r < |bs| ==> !bs[r].reserved)
    ensures forall j | i <= j < r :: bs[j].reserved
    decreases |bs| - i
  {
    if i == |bs| || !bs[i].reserved then i else FirstFree(bs, i + 1)
  }

  predicate HasRoom(m: Machine, k: BufId) {
    k in m.tree || FirstFree(m.buffers, 0) < |m.buffers|
  }

  /** get_packet_buffer: the machine with the buffer for h, and its number. */
  function Acquire(m: Machine, h: IpHdr): (r: (Machine, nat))
    requires HasRoom(m, IdOf(h))
  {
    if IdOf(h) in m.tree then (m, m.tree[IdOf(h)])
    else
      var i := FirstFree(m.buffers, 0);
      (Machine(m.buffers[i := Fresh(m.buffers[i], h)], m.tree[IdOf(h) := i]), i)
  }

  /** release_packet_buffer. */
  function Release(m: Machine, i: nat): Machine
    requires i < |m.buffers|
  {
    Machine(m.buffers[i := m.buffers[i].(reserved := false)], m.tree - {IdOf(m.buffers[i].hdr)})
  }

  /** ip_fragment_input. */
  function Input(m: Machine, h: IpHdr, rx: seq<Byte>): (r: (Machine, Outcome))
    requires FragmentOk(h, rx) && |m.buffers| == BUFFERS
    requires forall i | 0 <= i < BUFFERS :: |m.buffers[i].payload| == IP_MAX_BYTES
    requires forall k | k in m.tree :: m.tree[k] < BUFFERS
  {
    if !HasRoom(m, IdOf(h)) then (m, NoBuffer)
    else
      var (m1, i) := Acquire(m, h);
      var b := Fill(m1.buffers[i], h, rx);
      var m2 := m1.(buffers := m1.buffers[i := b]);
      if Complete(b) then (Release(m2, i), Completed(b.payload[..b.hdr.len])) else (m2, Held)
  }

  /** One buffer in ip_fragment_timer. */
  function TickOne(m: Machine, delta: int, i: nat): Machine
    requires i < |m.buffers|
  {
    if !m.buffers[i].reserved then m
    else
      var b := m.buffers[i].(timer := m.buffers[i].timer - delta);
      var m1 := m.(buffers := m.buffers[i := b]);
      if b.timer <= 0 then Release(m1, i) else m1
  }

  /** ip_fragment_timer, from buffer i on. */
  function Tick(m: Machine, delta: int, i: nat): Machine
    requires i <= |m.buffers|
    decreases |m.buffers| - i
  {
    if i == |m.buffers| then m else Tick(TickOne(m, delta, i), delta, i + 1)
  }

  // ----- what every step keeps

  lemma AcquireKeeps(m: Machine, h: IpHdr)
    requires Inv(m) && HasRoom(m, IdOf(h))
    ensures var (m1, i) := Acquire(m, h);
      && Inv(m1) && i < BUFFERS && m1.buffers[i].reserved && IdOf(m1.buffers[i].hdr) == IdOf(h)
      && IdOf(h) in m1.tree && m1.tree[IdOf(h)] == i
  {
  }

  lemma FillKeeps(m: Machine, i: nat, h: IpHdr, rx: seq<Byte>)
    requires Inv(m) && FragmentOk(h, rx) && i < BUFFERS && m.buffers[i].reserved && IdOf(m.buffers[i].hdr) == IdOf(h)
    ensures var b := Fill(m.buffers[i], h, rx);
      Inv(m.(buffers := m.buffers[i := b])) && b.reserved && IdOf(b.hdr) == IdOf(h)
  {
  }

  lemma ReleaseKeeps(m: Machine, i: nat)
    requires Inv(m) && i < BUFFERS && m.buffers[i].reserved
    ensures Inv(Release(m, i))
  {
  }

  /** A buffer is reserved iff it is in the tree, and no two live buffers share an identifier. */
  lemma InputKeeps(m: Machine, h: IpHdr, rx: seq<Byte>)
    requires Inv(m) && FragmentOk(h, rx)
    ensures Inv(Input(m, h, rx).0)
  {
    if HasRoom(m, IdOf(h)) {
      var (m1, i) := Acquire(m, h);
      AcquireKeeps(m, h);
      FillKeeps(m1, i, h, rx);
      var b := Fill(m1.buffers[i], h, rx);
      if Complete(b) {
        ReleaseKeeps(m1.(buffers := m1.buffers[i := b]), i);
      }
    }
  }

  /** Live buffers differ in one of the four fields, and a datagram finds a buffer if it has one or fewer than four are
    live. */
  lemma LiveApart(m: Machine, k: BufId)
    requires Inv(m)
    ensures forall i, j | 0 <= i < j < |m.buffers| && m.buffers[i].reserved && m.buffers[j].reserved ::
      Differ(m.buffers[i].hdr, m.buffers[j].hdr)
    ensures HasRoom(m, k) <==>
      || (exists i :: 0 <= i < |m.buffers| && m.buffers[i].reserved && Belongs(m.buffers[i].hdr, k))
      || (exists i :: 0 <= i < 4 == |m.buffers| && !m.buffers[i].reserved)
  {
    forall i, j | 0 <= i < j < |m.buffers| && m.buffers[i].reserved && m.buffers[j].reserved
      ensures Differ(m.buffers[i].hdr, m.buffers[j].hdr)
    {
      IdOfIs(m.buffers[i].hdr, m.buffers[j].hdr, k);
    }
    if k in m.tree {
      var i := m.tree[k];
      IdOfIs(m.buffers[i].hdr, m.buffers[i].hdr, k);
      assert m.buffers[i].reserved && Belongs(m.buffers[i].hdr, k);
    }
  }

  lemma TickKeeps(m: Machine, delta: int, i: nat)
    requires Inv(m) && i <= BUFFERS
    ensures Inv(Tick(m, delta, i))
    decreases BUFFERS - i
  {
    if i < BUFFERS {
      if m.buffers[i].reserved {
        var m1 := m.(buffers := m.buffers[i := m.buffers[i].(timer := m.buffers[i].timer - delta)]);
        assert Inv(m1);
        ReleaseKeeps(m1, i);
      }
      TickKeeps(TickOne(m, delta, i), delta, i + 1);
    }
  }
}
