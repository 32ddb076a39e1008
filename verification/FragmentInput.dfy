/** The packet buffers and ip_fragment_input, in place (src/ip_fragment.c:21-223). */
module FragmentInput {
  import opened Checksum
  import opened IpHeader
  import opened Reassembly
  import Map = FragmentMap

  class PacketBuf {
    var reserved: bool
    var timer: int
    const fragmap: array<Map.Word>
    var ip_hdr: IpHdr
    const payload: array<Byte>

    ghost predicate Valid() {
      fragmap.Length == Map.FRAG_MAP_SIZE && payload.Length == IP_MAX_BYTES
    }

    ghost const Repr: set<object> := {this, fragmap, payload}

    ghost function Value(): Buffer
      requires Valid()
      reads this, fragmap, payload
    {
      Buffer(reserved, timer, ip_hdr, Map.Blocks(fragmap[..]), payload[..])
    }

    constructor ()
      ensures Valid() && fresh(Repr) && Value().blocks == {} && !reserved
    {
      reserved, timer, ip_hdr := false, 0, IpHdr(0, 0, 0, 0, 0, 0, 0, 0, 0, 0);
      fragmap := new Map.Word[Map.FRAG_MAP_SIZE](_ => 0);
      payload := new Byte[IP_MAX_BYTES](_ => 0);
      new;
      forall i: nat | i < Map.FRAG_MAX ensures !Map.BitSet(fragmap[..], i) {
        Map.SetBit(0, 0, i % 32);
      }
    }

    /** memcpy of the fragment, its marks, and the header fields (src/ip_fragment.c:157-171). */
    method Store(h: IpHdr, rx: seq<Byte>)
      requires Valid() && FragmentOk(h, rx)
      modifies this, fragmap, payload
      ensures Value() == Fill(old(Value()), h, rx)
    {
      var off := Offset(h);
      Blit(payload, off, rx);
      var i := off / 8;
      ghost var before := Map.Blocks(fragmap[..]);
      while i < off / 8 + (h.len - Hlen(h) + 7) / 8
        invariant off / 8 <= i <= off / 8 + (|rx| + 7) / 8
        invariant Map.Blocks(fragmap[..]) == before + BlocksOf(off, 8 * (i - off / 8))
        modifies fragmap
      {
        Map.FragmapSet(fragmap, i);
        OneMore(off, i);
        i := i + 1;
      }
      SameBlocks(off, |rx|, 8 * (i - off / 8));
      if off == 0 {
        ip_hdr := h.(len := 0, foff := 0);
      } else if !MoreFragments(h) {
        ip_hdr := ip_hdr.(len := h.len - Hlen(h) + off);
      }
    }

    /** Takes the buffer unless it is reserved (src/ip_fragment.c:119-126). */
    method Claim(h: IpHdr) returns (claimed: bool)
      requires Valid()
      modifies this, fragmap
      ensures claimed == !old(reserved)
      ensures Value() == if claimed then Fresh(old(Value()), h) else old(Value())
    {
      var was := reserved;
      reserved := true;
      claimed := !was;
      if claimed {
        Map.FragmapInit(fragmap);
        timer := FRAGMENT_TLB;
        ip_hdr := h.(foff := 0, len := 0);
      }
    }

    /** The loop that looks for a missing block (src/ip_fragment.c:173-178). */
    method IsComplete() returns (done: bool)
      requires Valid()
      ensures done <==> Complete(Value())
    {
      done := false;
      if ip_hdr.len != 0 {
        var t := false;
        var i := 0;
        while i < (ip_hdr.len + 7) / 8
          invariant 0 <= i <= (ip_hdr.len + 7) / 8
          invariant t <==> exists j :: 0 <= j < i && j !in Map.Blocks(fragmap[..])
        {
          var marked := Map.FragmapTst(fragmap, i);
          t := t || !marked;
          i := i + 1;
        }
        assert forall j | j in BlocksOf(0, ip_hdr.len) :: 0 <= j < i;
        assert forall j: nat | j < i :: IsBlock(j, 0, ip_hdr.len);
        done := !t;
      }
    }
  }

  /** The static packet buffers and the tree that finds them. */
  class Fragments {
    const packet_buffer: seq<PacketBuf>
    var tree: map<BufId, nat>
    ghost const Repr: set<object>

    ghost predicate Valid() {
      && |packet_buffer| == BUFFERS && this !in Repr
      && (forall i | 0 <= i < BUFFERS :: packet_buffer[i].Repr <= Repr)
      && (forall i | 0 <= i < BUFFERS :: packet_buffer[i].Valid())
      && (forall i, j | 0 <= i < j < BUFFERS :: packet_buffer[i].Repr !! packet_buffer[j].Repr)
    }

    ghost function Buffers(): (bs: seq<Buffer>)
      requires Valid()
      reads Repr
      ensures |bs| == BUFFERS && forall i | 0 <= i < BUFFERS :: bs[i] == packet_buffer[i].Value()
    {
      [packet_buffer[0].Value(), packet_buffer[1].Value(), packet_buffer[2].Value(), packet_buffer[3].Value()]
    }

    ghost function Value(): Machine
      requires Valid()
      reads this, Repr
    {
      Machine(Buffers(), tree)
    }

    /** The zeroed static data at program start. */
    constructor ()
      ensures Valid() && fresh(Repr) && Inv(Value()) && tree == map[]
      ensures forall i | 0 <= i < BUFFERS :: !Buffers()[i].reserved && Buffers()[i].blocks == {}
    {
      hide Inv, Map.Blocks;
      var p0 := new PacketBuf();
      var p1 := new PacketBuf();
      var p2 := new PacketBuf();
      var p3 := new PacketBuf();
      packet_buffer := [p0, p1, p2, p3];
      Repr := p0.Repr + p1.Repr + p2.Repr + p3.Repr;
      tree := map[];
      new;
      StartInv(Value());
    }

    twostate lemma OneChanged(i: nat)
      requires Valid() && i < BUFFERS
      requires forall j | 0 <= j < BUFFERS && j != i :: unchanged(packet_buffer[j].Repr)
      ensures Buffers() == old(Buffers())[i := packet_buffer[i].Value()]
    {
    }

    /** Takes buffer i unless it is reserved. */
    method ClaimAt(i: nat, h: IpHdr) returns (claimed: bool)
      requires Valid() && i < BUFFERS
      modifies packet_buffer[i].Repr
      ensures claimed == !old(Buffers()[i].reserved)
      ensures Buffers() == if claimed then old(Buffers())[i := Fresh(old(Buffers())[i], h)] else old(Buffers())
    {
      claimed := packet_buffer[i].Claim(h);
      OneChanged(i);
    }

    /** get_packet_buffer: the number of the buffer, or none. */
    method GetPacketBuffer(h: IpHdr) returns (found: bool, i: nat)
      requires Valid() && forall k | k in tree :: tree[k] < BUFFERS
      modifies this, Repr
      ensures found == old(HasRoom(Value(), IdOf(h)))
      ensures found ==> i < BUFFERS && (Value(), i) == old(Acquire(Value(), h))
      ensures !found ==> Value() == old(Value())
    {
      if IdOf(h) in tree {
        return true, tree[IdOf(h)];
      }
      i := 0;
      while i < |packet_buffer|
        invariant i <= BUFFERS && Value() == old(Value())
        invariant FirstFree(old(Buffers()), 0) == FirstFree(old(Buffers()), i)
      {
        var claimed := ClaimAt(i, h);
        if claimed {
          tree := tree[IdOf(h) := i];
          return true, i;
        }
        i := i + 1;
      }
      return false, 0;
    }

    /** release_packet_buffer. */
    method ReleasePacketBuffer(i: nat)
      requires Valid() && i < BUFFERS
      modifies this, packet_buffer[i]
      ensures Value() == old(Release(Value(), i))
    {
      tree := tree - {IdOf(packet_buffer[i].ip_hdr)};
      packet_buffer[i].reserved := false;
      OneChanged(i);
    }

    /** The fragment goes into buffer i. */
    method StoreInto(i: nat, h: IpHdr, rx: seq<Byte>)
      requires Valid() && i < BUFFERS && FragmentOk(h, rx)
      modifies packet_buffer[i].Repr
      ensures Buffers() == old(Buffers())[i := Fill(old(Buffers())[i], h, rx)]
    {
      hide FragmentOk, Fill;
      packet_buffer[i].Store(h, rx);
      OneChanged(i);
    }

    /** ip_fragment_input, up to the hand-over of a completed datagram. */
    method FragmentInput(h: IpHdr, rx: seq<Byte>) returns (out: Outcome)
      requires Valid() && Inv(Value()) && FragmentOk(h, rx)
      modifies this, Repr
      ensures (Value(), out) == old(Input(Value(), h, rx)) && Inv(Value())
    {
      InputKeeps(Value(), h, rx);
      hide Inv, Fill, Complete, Acquire, HasRoom, FirstFree, FragmentOk;
      var found, i := GetPacketBuffer(h);
      if !found {
        return NoBuffer;
      }
      StoreInto(i, h, rx);
      var done := packet_buffer[i].IsComplete();
      if done {
        var data := packet_buffer[i].payload[..packet_buffer[i].ip_hdr.len];
        ReleasePacketBuffer(i);
        return Completed(data);
      }
      return Held;
    }

    /** One buffer in ip_fragment_timer. */
    method TimerOne(i: nat, delta: int)
      requires Valid() && i < BUFFERS
      modifies this, packet_buffer[i]
      ensures Value() == old(TickOne(Value(), delta, i))
    {
      var p := packet_buffer[i];
      if p.reserved {
        p.timer := p.timer - delta;
        OneChanged(i);
        if p.timer <= 0 {
          ReleasePacketBuffer(i);
        }
      }
    }

    /** ip_fragment_timer. */
    method Timer(delta: int)
      requires Valid() && Inv(Value())
      modifies this, Repr
      ensures Value() == old(Tick(Value(), delta, 0)) && Inv(Value())
    {
      hide Inv, TickOne;
      TickKeeps(Value(), delta, 0);
      for i := 0 to |packet_buffer|
        invariant Tick(Value(), delta, i) == old(Tick(Value(), delta, 0))
      {
        TimerOne(i, delta);
      }
    }
  }

  lemma StartInv(m: Machine)
    requires |m.buffers| == BUFFERS && m.tree == map[]
    requires forall i | 0 <= i < BUFFERS :: |m.buffers[i].payload| == IP_MAX_BYTES && !m.buffers[i].reserved
    ensures Inv(m)
  {
  }

  lemma OneMore(off: nat, i: nat)
    requires off / 8 <= i
    ensures BlocksOf(off, 8 * (i + 1 - off / 8)) == BlocksOf(off, 8 * (i - off / 8)) + {i}
  {
  }

  lemma SameBlocks(off: nat, n: nat, m: nat)
    requires (n + 7) / 8 == (m + 7) / 8
    ensures BlocksOf(off, n) == BlocksOf(off, m)
  {
    assert forall i: nat :: IsBlock(i, off, n) == IsBlock(i, off, m);
  }
}
