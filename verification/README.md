# xstack.io: a model of its data structures and protocols

xstack.io is a small TCP/IP stack in C that runs in user space.  This project models the parts of it that decide
whether packets arrive intact, and proves what they promise.

- **Search trees** (`src/tree.h`).  `RedBlackTree.dfy` and `SplayTree.dfy` rewrite node fields and the root pointer in
  place, macro by macro, with the loops of the source.  The proofs use pure trees, a zipper for the place a loop has
  reached (`RbShape.dfy`, `SplayShape.dfy`) and the colour invariants of each repair step (`RbColor.dfy`).
  `RbQueries.dfy` has search, neighbours, traversal and the height bound.  `Orders.dfy` says what it means to add or
  take one element.
- **Fragmentation and reassembly** (`src/ip.c`, `src/ip_fragment.c`; section 3.2 of RFC 791).  `IpHeader.dfy` and
  `IpSend.dfy` cut a packet up inside its own buffer.  `FragmentMap.dfy` is the bitmap on 32-bit words,
  `FragmentInput.dfy` the buffers and the input function in place, refining the state machine of `Reassembly.dfy`.
  `ReassemblyRuns.dfy` proves isolation and completion over whole runs, `FragmentRoundTrip.dfy` joins sender and
  receiver, `ReassemblyLimits.dfy`, `ReassemblyAnySize.dfy` and `ReassemblyStale.dfy` say exactly where the code falls
  short, and `ReassemblyTimed.dfy` lets the timer run in between and says which header is kept.
- **The shared ring** (`util/queue_r.c`).  `QueueR.dfy` is the code for one caller; `QueueRuns.dfy` is the protocol of
  one producer and one consumer as a transition system with one shared load or store a step.
- **The frame check sequence** (`src/ether_fcs.c`; section 3.2.9 of IEEE 802.3): `EtherFcs.dfy`.
- **Checksums** (`src/ip.c`, `src/tcp.c`; section 2 of RFC 1071): `Checksum.dfy`, `TcpHeader.dfy`.  What goes out and
  comes in is also stated in bytes alone: `IpSend.OnTheWire`, `TcpConn.ReplyOnWire`.
- **The route table** (`src/ip_route.c`): `AddressMask.dfy`, `RouteOrder.dfy`, `RouteTable.dfy`.
- **Passive TCP connections** (`src/tcp.c`; section 3.5 of RFC 9293): `TcpConn.dfy`, `TcpRuns.dfy`.
- **Deferred sends** (`src/ip_defer.c`): `IpDefer.dfy`, `IpDeferRuns.dfy`.

`dafny verify dfyconfig.toml` checks everything.

## Where the code is not what it says

The model follows the code.  Each of these is stated exactly by the lemma named.

- A fragment at offset 0 resets the known length (`src/ip_fragment.c:165-168`), so a datagram whose final fragment
  comes before its first is never completed unless a final one comes again, although RFC 791 allows any order:
  `ReassemblyLimits.OnceEach`, `FinalComesFirst`.
- `fragmap_init` clears 256 bytes of a map of 256 words, so marks of an earlier datagram survive from byte 16384 on:
  `ReassemblyLimits.StaleMarks`, `CleanEnough`, `ReassemblyAnySize.ReassemblesAnySize`,
  `ReassemblyStale.StaleDelivery`.
- The route comparators subtract 32-bit addresses and are orders only on half circles: `RouteOrder.OrdersIffNear`,
  `Ring`.  The masked search takes the first match in network order.  That is the longest prefix exactly when every
  other matching network is 2^31 or more below its own: `RouteTable.LongestPrefixIff`, `ShorterPrefixFound`.
- A second route with the same interface address is in one tree and not in the other: `RouteTable.RouteTable.Update`,
  `RouteTable.SharedInterface`. Taking an entry from an empty free list follows a null pointer before the test for it
  (`src/ip_route.c:54-55`), so the `ENOMEM` branch is never taken; `Update` asks for a free slot.
- Answers to segments that do not fit the handshake carry no ACK and use up a sequence number each
  (`src/tcp.c:230-235`): `TcpRuns.ReplyFlags`, `NumbersFollowReplies`, `MisfitAnswered`.  A connection that was closed
  stays in the map and blocks its ports for good: `TcpRuns.ClosedForGood`.
- `ip_defer_handler` never clears its inhibit flag, and `ip_defer_push` never stores the size of the packet:
  `IpDeferRuns.InhibitedIffRan`, `PushedIff`, `RunHandler`.
- SPLAY_REMOVE returns its argument, which is the node it took out only if the argument itself was in the tree:
  `SplayTree.Head.Remove`, `SplayTree.OtherReturned`.

## Model

| member | source | states |
|---|---|---|
| RedBlackTree.Head.Remove | src/tree.h:524-589 | RB_REMOVE of any node of any valid tree terminates with a valid red-black tree whose in-order sequence is the old one with exactly that node taken out; the spliced-in successor case included |
| RedBlackTree.Head.RemoveColor | src/tree.h:446-522 | the repair loop takes a tree with one black missing at a subtree to a red-black tree with the same in-order sequence, and terminates |
| RedBlackTree.Head.Insert | src/tree.h:591-620 | RB_INSERT puts the new node into its place in the in-order sequence of a valid tree, or finds a node with an equal key, returns it and changes nothing at all |
| RedBlackTree.Head.InsertColor | src/tree.h:402-444 | the repair loop takes a tree with at most one red-red fault, at elm, to a red-black tree with the same in-order sequence |
| RedBlackTree.Head.Grow | src/tree.h:609-618 | the new red node in the empty place that the search found, and the colours repaired: the whole tree is valid again |
| RedBlackTree.Head.Attach | src/tree.h:609-617 | RB_SET and the parent's link put the node into the empty place and change nothing else of the tree |
| RedBlackTree.Head.RotateLeft | src/tree.h:337-355 | the rotation, all parent links included, is the textbook rotation of the subtree in its place |
| RedBlackTree.Head.RotateRight | src/tree.h:357-375 | the mirror image |
| RedBlackTree.Head.LiftLeft | src/tree.h:423-424 | recolouring parent and grandparent and rotating right ends the insertion repair |
| RedBlackTree.Head.LiftRight | src/tree.h:439-440 | the mirror image |
| RedBlackTree.Head.RepairLeft | src/tree.h:409-424 | one round under a left parent: the fault stays at elm, moves up, and the sequence is kept |
| RedBlackTree.Head.RepairRight | src/tree.h:426-440 | the mirror image |
| RedBlackTree.Head.RaiseSiblingLeft | src/tree.h:453-458 | a red sibling is rotated up: the missing black stays where it was and the new sibling is black |
| RedBlackTree.Head.RaiseSiblingRight | src/tree.h:486-491 | the mirror image |
| RedBlackTree.Head.TurnInwardLeft | src/tree.h:467-476 | a red near nephew is rotated to the far side |
| RedBlackTree.Head.TurnInwardRight | src/tree.h:500-509 | the mirror image |
| RedBlackTree.Head.TurnOutwardLeft | src/tree.h:477-483 | the far nephew is black and the last rotation supplies the missing black |
| RedBlackTree.Head.TurnOutwardRight | src/tree.h:510-516 | the mirror image |
| RedBlackTree.Head.EndShortLeft | src/tree.h:466-483 | with a red nephew the repair ends in this round |
| RedBlackTree.Head.EndShortRight | src/tree.h:499-516 | the mirror image |
| RedBlackTree.Head.ShortLeft | src/tree.h:453-484 | one round of the repair with the short side on the left: it ends, or the fault moves up to the parent |
| RedBlackTree.Head.ShortRight | src/tree.h:486-517 | the mirror image |
| RedBlackTree.Head.Splice | src/tree.h:573-584 | a node with at most one child is unlinked and its child takes its place, the node's own fields untouched |
| RedBlackTree.Head.Replace | src/tree.h:553-564 | the successor takes over fields, place and neighbours' links of the removed node |
| RedBlackTree.Head.UnlinkOuter | src/tree.h:529-532 | removal of a node with at most one child leaves at most one black missing, at the child |
| RedBlackTree.Head.UnlinkInner | src/tree.h:533-571 | removal of a node with two children, with the successor spliced out and put in its place, leaves the other nodes in order and at most one black missing |
| RedBlackTree.Head.Leftmost | src/tree.h:535-537 | the walk to the left finds the least node of the right subtree |
| RedBlackTree.Head.constructor | src/tree.h:301-303 | RB_INIT gives a valid empty tree |
| RbColor.RecolorFault | src/tree.h:411-415 | with a red uncle the fault moves to the grandparent and nothing else breaks |
| RbColor.StraightenFault | src/tree.h:417-422 | the inner rotation keeps the single fault |
| RbColor.LiftFaultLeft | src/tree.h:423-424 | with a black uncle the last rotation leaves no red-red pair above the fault |
| RbColor.LiftFaultRight | src/tree.h:439-440 | the mirror image |
| RbColor.SiblingExists | src/tree.h:453 | the short side always has a sibling, so the code may follow it |
| RbColor.RedSiblingFaultLeft | src/tree.h:454-458 | black counts after a red sibling was raised |
| RbColor.RedSiblingFaultRight | src/tree.h:487-491 | the mirror image |
| RbColor.BlackNephewsFault | src/tree.h:459-465 | painting the sibling red moves the missing black to the parent |
| RbColor.InwardFaultLeft | src/tree.h:467-476 | black counts after the near nephew was rotated out |
| RbColor.InwardFaultRight | src/tree.h:500-509 | the mirror image |
| RbColor.OutwardFaultLeft | src/tree.h:477-483 | black counts are whole after the last rotation |
| RbColor.OutwardFaultRight | src/tree.h:510-516 | the mirror image |
| RbQueries.Find | src/tree.h:622-638 | RB_FIND returns the node with the key exactly when there is one |
| RbQueries.NFind | src/tree.h:640-659 | RB_NFIND returns the node with the least key that is not below the search key, or none when all are below |
| RbQueries.MinMax | src/tree.h:705-718 | RB_MINMAX returns the first or the last node in order, none for an empty tree |
| RbQueries.Next | src/tree.h:661-681 | RB_NEXT returns the neighbour after the node in order, for every node of every valid tree |
| RbQueries.Prev | src/tree.h:683-703 | RB_PREV returns the neighbour before it |
| RbQueries.PrevUndoesNext | src/tree.h:661-703 | RB_PREV of RB_NEXT is the node itself |
| RbQueries.ForEach | src/tree.h:732-735 | RB_FOREACH visits every node once, in strictly increasing key order, and nothing else |
| RbQueries.HeightByDepth | src/tree.h:48-53 | a tree of black depth h has height at most 2h, or 2h + 1 under a red root, and at least 2^h - 1 nodes |
| RbQueries.HeightBound | src/tree.h:55-56 | 2^height is at most (n + 1)^2: the height is at most 2 lg(n + 1) |
| SplayTree.Head.Splay | src/tree.h:204-237 | SPLAY terminates on every search tree with the same nodes in the same order, and with the root where the key is or would be: everything left of the root is below the key and everything right of it above |
| SplayTree.Head.Find | src/tree.h:122-132 | SPLAY_FIND returns the node with the key exactly when there is one, and keeps the sorted sequence of nodes |
| SplayTree.Head.Insert | src/tree.h:159-181 | SPLAY_INSERT puts the node into the sorted sequence, or returns a node with an equal key and leaves the sequence as it was |
| SplayTree.Head.Remove | src/tree.h:183-202 | SPLAY_REMOVE takes exactly the node with the key out of the sorted sequence, and returns the node passed in; that is the one taken out if and only if it was in the tree itself; otherwise nothing is taken |
| SplayTree.OtherReturned | src/tree.h:190-200 | a tree of one node, and another node with its key: the one is taken out and the other returned |
| SplayTree.Head.JoinSides | src/tree.h:193-198 | with the greatest left node splayed up, hanging the right side below it gives left sequence followed by right sequence |
| SplayTree.Head.SplayLast | src/tree.h:196 | splaying the left side for a greater key leaves its root without right child, so nothing is lost when the link is overwritten |
| SplayTree.Head.RoundLeft | src/tree.h:214-223 | one round for a key below the root: the three parts together keep their nodes in order, and the middle tree shrinks |
| SplayTree.Head.RoundRight | src/tree.h:224-233 | the mirror image |
| SplayTree.Head.Assemble | src/tree.h:107-112 | SPLAY_ASSEMBLE joins left spine, middle and right spine in order, also when a spine is empty and its end is the local dummy node |
| SplayTree.Head.LinkLeft | src/tree.h:95-99 | SPLAY_LINKLEFT moves the root and its right subtree to the right spine |
| SplayTree.Head.LinkRight | src/tree.h:101-105 | the mirror image |
| SplayShape.AssembleCut | src/tree.h:107-112 | the assembled links form a search tree with the three sequences joined |
| SplayShape.LinkOrder | src/tree.h:95-105 | linking keeps the sequence of the three parts |
| SplayShape.CutSplits | src/tree.h:213-236 | where the loop stops, the assembled tree is split at the key |
| Reassembly.InputKeeps | src/ip_fragment.c:89-206 | in every reachable state a buffer is reserved exactly when it is in the tree, under its own (src, dst, proto, id), and no two live buffers share a key |
| Reassembly.IdOfIs | src/ip_fragment.c:39-65 | two headers have one buffer identifier if and only if source, destination, protocol and identification all agree |
| Reassembly.LiveApart | src/ip_fragment.c:95-139 | any two live buffers differ in one of the four fields, and there is room for a datagram if and only if one of them has its fields or one of the four buffers is free |
| Reassembly.TickKeeps | src/ip_fragment.c:208-223 | the timer keeps the same invariant |
| Reassembly.AcquireKeeps | src/ip_fragment.c:95-139 | get_packet_buffer hands out a reserved buffer that carries the fragment's key |
| Reassembly.FillKeeps | src/ip_fragment.c:157-171 | storing a fragment never changes the key of the buffer |
| Reassembly.ReleaseKeeps | src/ip_fragment.c:89-93 | release takes buffer and key out together |
| FragmentInput.PacketBuf.Store | src/ip_fragment.c:157-171 | the copy, the block marks and the header update of the code have the effect of one Fill: the bytes overlaid, exactly the touched blocks added, the length set, kept or reset |
| FragmentInput.PacketBuf.Claim | src/ip_fragment.c:117-134 | the test-and-set takes a free buffer only, and resets it as the code does |
| FragmentInput.PacketBuf.IsComplete | src/ip_fragment.c:173-179 | the loop finds a gap exactly when a block below the known length is unmarked |
| FragmentInput.PacketBuf.constructor | src/ip_fragment.c:32 | the zeroed static buffers |
| FragmentInput.Fragments.GetPacketBuffer | src/ip_fragment.c:95-139 | finds the buffer with the key or claims the first free one, and fails exactly when neither exists |
| FragmentInput.Fragments.ReleasePacketBuffer | src/ip_fragment.c:89-93 | takes the buffer's key out of the tree and frees the buffer, nothing else |
| FragmentInput.Fragments.FragmentInput | src/ip_fragment.c:141-195 | ip_fragment_input in place refines the state machine: same new state, same outcome, invariant kept |
| FragmentInput.Fragments.Timer | src/ip_fragment.c:208-223 | ip_fragment_timer in place refines the machine's tick |
| FragmentInput.Fragments.constructor | src/ip_fragment.c:32-33 | the initial state satisfies the invariant |
| FragmentMap.FragmapInit | src/ip_fragment.c:69-72 | clears only the first 2048 of 8192 marks: those from 2048 on stay |
| FragmentMap.FragmapSet | src/ip_fragment.c:74-77 | adds exactly one block |
| FragmentMap.FragmapClear | src/ip_fragment.c:79-82 | removes exactly one block |
| FragmentMap.FragmapTst | src/ip_fragment.c:84-87 | tests exactly one block |
| FragmentMap.SetBit | src/ip_fragment.c:74-87 | setting or clearing bit j of a word changes bit j and no other |
| ReassemblyRuns.Isolation | src/ip_fragment.c:39-195 | for every interleaving of fragments of any datagrams, told apart by source, destination, protocol and identification, the buffer of a datagram and the answers to its fragments are what they would be had they come alone; only that datagram's own fragments need to be below 16384 bytes and to find a buffer |
| ReassemblyRuns.OwnStep | src/ip_fragment.c:141-195 | one own fragment: buffer and answer as when alone |
| ReassemblyRuns.OtherStep | src/ip_fragment.c:141-195 | one foreign fragment, completed or refused or not, leaves the datagram's buffer alone |
| ReassemblyRuns.WholeIffDone | src/ip_fragment.c:165-179 | the code's completeness test holds exactly when a final fragment has come since the latest offset-0 fragment and every block is covered, and then the collected bytes are the datagram |
| ReassemblyRuns.Gathered | src/ip_fragment.c:157-171 | after any fragments of a datagram in any order, duplicates and overlaps included, the buffer has its length if known, its covered blocks and its own bytes in them |
| ReassemblyRuns.AnyOrder | src/ip_fragment.c:157-195 | a datagram completes at exactly the first arrival that makes it done, with exactly its bytes |
| ReassemblyRuns.KeptAlone | src/ip_fragment.c:157-195 | before that arrival every fragment is kept and none is delivered |
| ReassemblyRuns.Reassembles | src/ip_fragment.c:95-195 | both together, on the machine with four buffers: completion at the first arrival that makes the datagram done, not before, and the delivered bytes equal the original data |
| ReassemblyRuns.FirstBeforeFinal | src/ip_fragment.c:165-171 | when every fragment comes once, a final fragment has come since the offset-0 one exactly if the offset-0 fragment came first: the code forgets the length at offset 0 |
| ReassemblyLimits.OnceEach | src/ip_fragment.c:165-179 | on the machine: a datagram of which the offset-0 fragment and the final one come once each is delivered if and only if the offset-0 fragment comes first; otherwise every fragment of it is held, none delivered, however others come in between |
| ReassemblyLimits.FinalComesFirst | src/ip_fragment.c:165-171 | a concrete datagram of 64 bytes in two packets, final one first: nothing is missing and nothing is delivered |
| ReassemblyLimits.FilledWith | src/ip_fragment.c:69-72 | what a reused buffer holds after any fragments of a datagram: the stale marks from 2048 on are counted as if received |
| ReassemblyLimits.StaleMarks | src/ip_fragment.c:69-72 | exact condition for completion in any buffer and at any size: every missing block must be stale |
| ReassemblyLimits.CleanEnough | src/ip_fragment.c:69-72 | up to 16384 bytes, or without stale marks, the code is complete exactly when it should be, with the right bytes |
| ReassemblyAnySize.ReassemblesAnySize | src/ip_fragment.c:69-195 | for datagrams of any size, among any others, in a buffer with any marks: completion at the first arrival that leaves no block missing but stale ones, not before, and then exactly the datagram in the blocks that came and the buffer's old bytes in the others |
| ReassemblyAnySize.FillsAlone | src/ip_fragment.c:95-195 | a live buffer is filled and answered by its own fragments alone, whatever comes in between, bit for bit and for any size |
| ReassemblyAnySize.DifferentLeaves | src/ip_fragment.c:39-115 | a fragment whose header differs from a live datagram's in any one of the four fields leaves that datagram's buffer and its place in the tree as they were |
| ReassemblyAnySize.SameFills | src/ip_fragment.c:95-179 | one whose header agrees in all four goes into that buffer and no other changes |
| ReassemblyAnySize.CleanBuffer | src/ip_fragment.c:69-72 | with no stale mark among the datagram's blocks that is the datagram itself, as soon as it is done |
| ReassemblyAnySize.LeavesMark | src/ip_fragment.c:69-93 | every datagram that arrives whole is delivered, whatever the buffer held before, and leaves all its marks and bytes in that buffer, which is the next one to be taken |
| ReassemblyStale.StaleDelivery | src/ip_fragment.c:69-72 | after a datagram that ip_send_fragments sent, the packets of another one no longer than it, without one that lies beyond byte 16384 and is not the last: the second datagram is delivered with that part of the first |
| ReassemblyStale.GapDelivered | src/ip_fragment.c:173-179 | what the machine answers to those packets in a buffer with such marks: held but for the last, and at the last exactly that mixture |
| ReassemblyStale.CoveredButOne | src/ip_fragment.c:157-163 | the blocks that arrive are all but those of the lost packet |
| ReassemblyStale.SomeGap | src/ip.c:230-259 | 20000 bytes go out in 14 packets, and number 12, at 17664, is such a packet |
| ReassemblyTimed.TimedIsolation | src/ip_fragment.c:141-223 | for every interleaving of fragments of any datagrams with timer calls, the buffer of a live datagram is what its own fragments and the timer calls make of it |
| ReassemblyTimed.TimedEnd | src/ip_fragment.c:173-223 | until it is completed and delivered, or its time is up and it is freed with nothing delivered |
| ReassemblyTimed.TickOn | src/ip_fragment.c:208-223 | one timer call takes the same time from every live buffer and frees exactly those whose time is up |
| ReassemblyTimed.FirstTimer | src/ip_fragment.c:121-126 | the first fragment of a datagram gives it 15 units of time |
| ReassemblyTimed.GivenUpAt | src/ip_fragment.c:196-223 | a datagram that is not completed is given up at exactly the timer call with which the time taken reaches what it had: later fragments gain it nothing |
| ReassemblyTimed.HeaderIsFirst | src/ip_fragment.c:165-171 | after any events the header kept is that of the last fragment at offset 0 |
| ReassemblyTimed.CompletedHeader | src/ip_fragment.c:165-184 | a datagram is completed under the header of its last fragment at offset 0, with the length of the delivered data and no fragment fields |
| IpSend.IpSendFragments | src/ip.c:240-273 | the loop that cuts a packet up inside its own buffer hands to ether_send exactly the packets of the cut, in order, up to the first error, and returns the sum of the answers or that error; the remaining byte count falls in every round |
| IpSend.Round | src/ip.c:256-264 | one round: the packet handed on is the next fragment though earlier rounds have overwritten the front of the buffer, and the data still to be sent is intact |
| IpSend.Emit | src/ip.c:261-264 | header and moved data make up the packet, and neither the options nor the later data are hurt |
| IpSend.Memmove | src/ip.c:262 | overlapping move towards the front |
| IpSend.CutIsFaithful | src/ip.c:225-259 | the fragments' data joins to the payload; offsets are contiguous multiples of 8; MF is on all but the last; header plus data is at most 1500 bytes, for every header length up to 60 |
| IpSend.CutSizes | src/ip.c:230-259 | how many fragments there are, and where each begins: all but the last have one size |
| IpSend.FirstPacket | src/ip.c:252-270 | the packets of the rest are the next one and the packets after it |
| IpSend.PacketParses | src/ip.c:258-264 | each emitted packet reads back as its fragment: offset, MF and length fields, data, other fields unchanged, and a header checksum that verifies |
| IpSend.PacketBytes | src/ip.c:258-264 | each packet byte for byte: its own length in bytes 2 and 3, reserved bit and DF clear, MF and offset in bytes 6 and 7, a header whose words add up to 0, and every other header byte as in the packet that is cut up |
| IpSend.OnTheWire | src/ip.c:225-273 | all of fragmentation in bytes: packet i carries payload bytes from i times 1472 - (hlen - 20) / 8 * 8 on, is at most 1500 bytes long, has MF set but for the last, and there are just as many as hold the payload |
| IpHeader.IpHton | src/ip.c:67-84 | ip_hton in place writes the fields in network order with the checksum of the whole header, options included, and leaves everything else in the buffer alone |
| IpHeader.HeadedRoundTrip | src/ip.c:67-100 | ip_ntoh reads back what ip_hton wrote, and the written header checks to 0 |
| IpHeader.ParseFields | src/ip.c:67-100 | field by field round trip for every header value |
| IpHeader.FieldBytes | src/ip.c:67-84 | where each field stands in the bytes written, high byte first |
| IpHeader.ParseBytes | src/ip.c:86-100 | where each field is read from, and header length, offset and MF of any packet in terms of its bytes 0, 6 and 7 |
| FragmentRoundTrip.RoundTrip | src/ip.c:225-273 | every payload of two or more fragments, of any size and whatever the buffer held before, sent and received in order, is held at every packet but the last and complete at the last with the data that was sent |
| FragmentRoundTrip.ArrivalsAreSent | src/ip.c:258-264 | the arrivals of that theorem are the packets that ip_send_fragments emits, parsed by the receiver |
| FragmentRoundTrip.EndToEnd | src/ip.c:240-273 | buffer to buffer: the packets that ip_send_fragments emits from a buffer, read by the receiver one after the other, are held but for the last, and the last delivers the payload of that buffer |
| FragmentRoundTrip.InOrder | src/ip_fragment.c:165-179 | fragments in order make a datagram done at the last, and no final fragment comes before |
| QueueR.QueueCb.constructor | util/queue_r.c:40-50 | as many whole blocks as fit the array, empty at first |
| QueueR.QueueCb.Alloc | util/queue_r.c:52-63 | refuses exactly when a_len - 1 blocks are in use; otherwise the block of the write index, inside the array |
| QueueR.QueueCb.Commit | util/queue_r.c:65-70 | one more block in use; on a full queue, which a caller that asked queue_alloc first never has, all blocks are lost |
| QueueR.QueueCb.Peek | util/queue_r.c:72-84 | succeeds exactly when a block is in use, and gives a block inside the array |
| QueueR.QueueCb.Discard | util/queue_r.c:86-101 | drops as many blocks as asked for or as there are |
| QueueR.QueueCb.ClearFromPopEnd | util/queue_r.c:108-111 | empties the queue from the reading side |
| QueueR.QueueCb.ClearFromPushEnd | util/queue_r.c:103-106 | empties it from the writing side, with no other caller at work |
| QueueR.QueueCb.IsEmpty | util/queue_r.c:113-116 | tells whether no block is in use |
| QueueR.QueueCb.IsFull | util/queue_r.c:118-121 | tells whether a_len - 1 blocks are in use |
| QueueRuns.StepKeeps | util/queue_r.c:52-111 | every load and store of either side keeps the invariant: committed minus discarded blocks between 0 and a_len - 1, indices equal to the counts modulo a_len, and both sides' stale copies of the other index safe |
| QueueRuns.CommitStep | util/queue_r.c:65-70 | the store of m_write appends the filled block to the queue |
| QueueRuns.DiscardStep | util/queue_r.c:86-101 | the store of m_read removes the head, which is the block that was received |
| QueueRuns.PeekStep | util/queue_r.c:72-84 | what the consumer copies piece by piece after a peek is a growing front part of the head of the queue, and in the end the head itself, however many blocks are committed and filled meanwhile |
| QueueRuns.PeekSees | util/queue_r.c:72-84 | in every reachable state a peek leaves the consumer reading if and only if the queue is not empty |
| QueueRuns.AllocSees | util/queue_r.c:52-63 | an allocation leaves the producer filling if and only if more than one slot is free |
| QueueRuns.DiscardSees | util/queue_r.c:86-101 | the discard of a block that was read never finds the queue empty |
| QueueRuns.FillStep | util/queue_r.c:52-63 | filling an allocated block changes no queued block |
| QueueRuns.ClearStep | util/queue_r.c:108-111 | clearing drops a front part of the queue; blocks committed after the load survive |
| QueueRuns.RunKeeps | src/xstack.c:110-118 | all runs of alloc, fill, commit against peek, read, discard, one shared access per step |
| QueueRuns.ReceivedIsPrefix | src/xstack.c:217-232 | under every interleaving the consumer receives a prefix of the committed blocks, in order and unchanged |
| QueueRuns.NothingLost | util/queue_r.c:86-111 | with clears as well: committed blocks are those received, those cleared and those queued, and what was received is committed blocks in order |
| QueueRuns.SlotsApart | util/queue_r.c:52-84 | the block being filled is never the block being read, and both lie inside the array |
| QueueRuns.NeverStuck | util/queue_r.c:52-111 | in every reachable state each process has a step of its own to make |
| QueueRuns.CanReceive | util/queue_r.c:72-101 | a waiting consumer gets the head of a queue that is not empty by steps of its own, which leave the rest of the queue |
| QueueRuns.CanSend | util/queue_r.c:52-70 | an idle producer appends any block of the slot's size to a queue with room by steps of its own |
| QueueRuns.CanClear | util/queue_r.c:108-111 | a waiting consumer empties the queue by two steps of its own |
| QueueRuns.RunPeek | util/queue_r.c:72-84 | queue_peek makes the two steps of a peek and returns 1 exactly when they leave the consumer reading |
| QueueRuns.RunAlloc | util/queue_r.c:52-63 | queue_alloc makes the two steps of an allocation and fails exactly when they leave the producer idle |
| QueueRuns.RunCommit | util/queue_r.c:65-70 | queue_commit makes the two steps of a commit |
| QueueRuns.RunDiscard | util/queue_r.c:86-101 | queue_discard of one block makes the three steps of a discard and returns 1 |
| EtherFcs.EtherFcs | src/ether_fcs.c:4-23 | for every byte sequence the nibble loop computes the CRC-32 of section 3.2.9 of IEEE 802.3: the bitwise shift register, all ones to start with, complemented at the end |
| EtherFcs.KnownValue | src/ether_fcs.c:4-23 | the check value of the standard polynomial: the digits 1 to 9 in ASCII give CBF43926 |
| EtherFcs.TableIsComplemented | src/ether_fcs.c:7-13 | each of the 16 entries is the standard one for the complemented index, with the four vacated bits complemented |
| EtherFcs.StepIsFour | src/ether_fcs.c:18-19 | one step of the code is four steps of the complemented register, for every register and every input |
| EtherFcs.ByteStep | src/ether_fcs.c:17-20 | the loop body feeds the eight bits of a byte |
| EtherFcs.RunNibble | src/ether_fcs.c:18 | four bits fed one by one may be fed at once |
| EtherFcs.RunWord | src/linux/linux_ether.c:261-262 | four little-endian bytes may be fed at once |
| EtherFcs.Residue | src/linux/linux_ether.c:261-262 | a message followed by its own check sequence as stored has one constant check sequence, that of four zero bytes |
| EtherFcs.BurstDetected | src/ether_fcs.c:14-22 | two messages of equal length that differ only inside 32 consecutive bits, at any bit position, have different check sequences |
| EtherFcs.BurstRun | src/ether_fcs.c:17-20 | a non-zero difference inside 32 bits never leaves the register at zero |
| EtherFcs.RunDifference | src/ether_fcs.c:17-20 | the register is linear: runs over two messages differ by the run over their difference |
| Checksum.IpChecksum | src/ip.c:40-65 | the result is the one number below 65535 that makes the bytes, each times the weight of its place, add up to 0 modulo 65535, for every length, odd included |
| Checksum.TcpChecksum | src/tcp.c:118-166 | the same for the words of both addresses, 6, the length and the bytes of the segment; it equals the Internet checksum of pseudo header and segment |
| Checksum.KnownTcpSum | src/tcp.c:118-166 | twenty zero bytes from 10.0.0.1 to 10.0.0.2 get the checksum EB E2 on hosts of both byte orders |
| Checksum.WordsByPlace | src/ip.c:47-62 | the sum of 16-bit loads is the sum of bytes by their places |
| Checksum.ChecksOnWire | src/ip.c:82-83 | data checks to 0 on a host of either order if and only if its bytes in network order add up to 0 |
| Checksum.Accumulate | src/ip.c:47-62 | the accumulator stays in 1..65535 and congruent to the sum of the words so far |
| Checksum.FoldNorm | src/ip.c:49-52 | one addition with its correction |
| Checksum.ChecksVerifies | src/ip.c:82-83 | for every data and even field offset, a word in the field makes the check give 0 if and only if it is the checksum over the zeroed field, or 65535 where that is 0 |
| Checksum.OrderDoesNotMatter | src/ip.c:48-52 | a little-endian and a big-endian host store the same two bytes |
| Checksum.WordSumAppend | src/tcp.c:140-154 | the sum of an even-length part and the rest is the sum of the whole |
| RouteOrder.OrdersIffNear | src/ip_route.c:30-40 | the subtracting comparators are strict total orders on a set of addresses if and only if the set lies in some half circle of 2^31 addresses |
| RouteOrder.CmpIsRank | src/ip_route.c:30-40 | there they order addresses by their distance from its start |
| RouteOrder.CmpIsInt | src/ip_route.c:30-40 | for all addresses the comparator gives their difference modulo 2^32 as a signed 32-bit number |
| RouteOrder.Ring | src/ip_route.c:30-40 | three addresses that they order in a ring |
| RouteOrder.SearchIsFind | src/ip_route.c:42-45 | in any search tree over the entries, whatever its shape, RB_FIND finds what the in-order sequence says, for every key, near or not |
| RouteOrder.FindWorks | src/ip_route.c:100-101 | an entry is found exactly when its key is there |
| RouteOrder.InsertWorks | src/ip_route.c:68-72 | the tree stays sorted and gains the entry, or is what it was where the key is there |
| RouteOrder.RemoveWorks | src/ip_route.c:74-78 | the tree stays sorted and loses that entry only |
| RouteOrder.AttachIsInsert | src/ip_route.c:68-72 | in any search tree over the entries, whatever its shape, going down by comparisons and hanging a leaf where the search ends gives the same order of entries |
| RouteOrder.AddedIsInsert | src/ip_route.c:68-72 | and so does every linked insertion that adds the entry and keeps the order, as RedBlackTree.Head.Insert does |
| RouteOrder.TakenIsRemove | src/ip_route.c:74-78 | likewise every linked removal that takes the entry out, as RedBlackTree.Head.Remove does |
| RouteOrder.Rekey | src/ip_route.c:103-105 | an entry taken out, given another key and put back: the tree has it again, if and only if no other entry has the key |
| RouteTable.RouteTable.constructor | src/ip_route.c:190-201 | ip_route_init: all five slots free, the last one first, and no routes |
| RouteTable.RouteTable.Update | src/ip_route.c:96-113 | the routes become the old ones without that network, and the new one; every slot stays on the free list or in both trees if and only if no other route has the same interface address |
| RouteTable.RouteTable.Replace | src/ip_route.c:102-105 | the same for a network that is there: taken out of both trees, overwritten, put back |
| RouteTable.RouteTable.Add | src/ip_route.c:80-94 | the same for a network that is not there yet, in the slot at the head of the free list |
| RouteTable.RouteTable.Delete | src/ip_route.c:115-131 | exactly the route for the network goes and its slot is blanked and the next to be used, or -1 and no change |
| RouteTable.RouteTable.FindByNetwork | src/ip_route.c:133-170 | the exact route, else the first in network order whose network is the masked address, else the network-0 route, else -1, for every address, near the others or not |
| RouteTable.RouteTable.FindByIface | src/ip_route.c:172-188 | a route with the interface address exactly when there is one |
| RouteTable.RouteTable.TreeInsert | src/ip_route.c:68-72 | both trees stay sorted by their own key; each holds the new entry as well, or is what it was where an entry with that key is there |
| RouteTable.RouteTable.TreeRemove | src/ip_route.c:74-78 | both trees stay sorted, and each holds what it held but the entry |
| RouteTable.SlotsConserved | src/ip_route.c:47-66 | routes and free slots together are always five: no slot is lost |
| RouteTable.Overwrite | src/ip_route.c:103-105 | an overwrite keeps the two trees on the same slots if and only if no other route shares the interface address |
| RouteTable.Erase | src/ip_route.c:126-128 | both trees lose the same entry |
| RouteTable.WiderFirst | src/ip_route.c:147-152 | of two routes that match an address the one whose mask lies inside the other's comes first in the search, if and only if its network is less than 2^31 below the other's |
| RouteTable.LongestPrefixIff | src/ip_route.c:141-158 | without an exact match the longest prefix is what ip_route_find_by_network answers, if and only if the network of every other matching route is 2^31 or more below its own |
| RouteTable.ShorterPrefixFound | src/ip_route.c:147-152 | 10.1.2.3 with routes for 10.0.0.0/8 and 10.1.0.0/16 goes to the /8 |
| RouteTable.LongerPrefixFound | src/ip_route.c:147-152 | 192.1.2.3 with routes for 0.0.0.0/0 and 192.0.0.0/8 in a half circle from 192.0.0.0 goes to the /8 |
| RouteTable.SharedInterface | src/ip_route.c:96-113 | a table and a new route with an interface address that it has already |
| RouteTable.ListedInOrder | src/ip_route.c:30-34 | the routes stand in the order of the network tree, each network once, all in one half circle |
| AddressMask.AndBits | src/ip_route.c:149 | each bit of a masked address is the and of the two bits |
| TcpHeader.TcpHton | src/tcp.c:168-183 | tcp_hton in place writes the header in network order with the checksum over pseudo header and segment, and leaves options, data and the rest of the buffer alone |
| TcpHeader.SegmentVerifies | src/tcp.c:168-195 | the receiver reads the same fields back and its checksum gives 0 |
| TcpHeader.ParseTcpFields | src/tcp.c:168-195 | field by field round trip |
| TcpHeader.TcpFieldBytes | src/tcp.c:168-183 | where each field stands in the bytes written, high byte first |
| TcpHeader.TcpParseBytes | src/tcp.h:25-58 | FIN, SYN and ACK are bits 0, 1 and 4 of byte 13, and the header has four times as many bytes as the upper half of byte 12 says, or is refused when that is below 20 |
| TcpHeader.SegmentOnWire | src/tcp.c:118-166 | what the receiver of a segment adds up: address words, 6, length and bytes, to 0 |
| TcpHeader.WithAck | src/tcp.c:210 | setting the flag keeps SYN, FIN and the data offset |
| TcpHeader.WithoutAck | src/tcp.c:230 | clearing it likewise |
| TcpHeader.OtherFlags | src/tcp.c:210-230 | setting or clearing the flag changes no other bit of the header |
| TcpConn.Tcb.TcpFsm | src/tcp.c:197-272 | every branch of tcp_fsm: new state, both numbers, the segment rewritten in place and the value returned, for an answer four times the data offset of the segment that came |
| TcpConn.Tcb.constructor | src/tcp.c:107-116 | a new control block in the state that tcp_input gives it |
| TcpConn.TcpInput | src/tcp.c:278-333 | only a SYN makes a connection; a SYN on one that exists, or a bad data offset there, is refused with nothing changed; a reply stands in the buffer, byte for byte the segment that came but for ports exchanged, numbers, ACK bit and checksum, and as long as the header that came, options included; a reply that is not sent has still been written over the header |
| TcpConn.Respond | src/tcp.c:325-332 | the answer to a segment that the checks let through: state, numbers, return value, header and the bytes of the reply |
| TcpConn.SentVerifies | src/tcp.c:326-330 | the peer reads the same header from the reply and its checksum over it gives 0 |
| TcpConn.ReplyOnWire | src/tcp.c:207-262 | the bytes of a reply in each state: sequence number 0 or send_next, acknowledgement number that of the segment, plus one unless the segment did not fit, ACK clear exactly then, everything else as it came |
| TcpConn.ReplyFields | src/tcp.c:207-262 | a reply differs from the segment in the two numbers and the ACK bit alone |
| TcpRuns.RunKeeps | src/tcp.c:197-333 | the invariant of every run of segments between one pair of addresses and ports |
| TcpRuns.Receive | src/tcp.c:278-333 | tcp_input on the control block that earlier segments left is one step of such a run, and what it sends is the run's latest reply |
| TcpRuns.NumbersFollowReplies | src/tcp.c:210-236 | after any run recv_next is the acknowledgement number of the latest reply and send_next its sequence number plus one, and replies are numbered 0, 1, 2, ... modulo 2^32 |
| TcpRuns.ReplyFlags | src/tcp.c:230-232 | only the first reply carries SYN, and only it and the answer to a FIN carry ACK: answers to segments that do not fit the handshake go without |
| TcpRuns.MisfitAnswered | src/tcp.c:230-236 | a SYN and a segment with a wrong acknowledgement: the second reply has no ACK and number 1 |
| TcpRuns.Forward | src/tcp.c:197-272 | the state only moves forward along SYN_RCVD, ESTABLISHED, LAST_ACK, CLOSED, one at a time |
| TcpRuns.MovesWhen | src/tcp.c:207-263 | exactly which segments move it: ESTABLISHED is entered if and only if an ACK segment matches both numbers of the latest reply |
| TcpRuns.RepliedWhen | src/tcp.c:207-262 | exactly which segments are answered in a run, and with what number, acknowledgement and flags |
| TcpRuns.EstablishedBy | src/tcp.c:224-228 | every established connection goes back to a SYN and to a later segment that acknowledged the reply of its time, as in section 3.5 of RFC 9293 |
| TcpRuns.ClosedForGood | src/tcp.c:200-203 | a closed connection never answers or opens again |
| TcpRuns.Handshake | src/tcp.c:207-263 | handshake and passive close run through for all sequence numbers of the peer, wrap-around included |
| IpDefer.DeferQueue.Push | src/ip_defer.c:28-54 | -EALREADY, -ENOBUFS or -EMSGSIZE exactly in their cases and nothing changed; otherwise the packet at the end of the queue |
| IpDefer.DeferQueue.Peek | src/ip_defer.c:56-63 | the head of the queue or nothing |
| IpDefer.DeferQueue.Drop | src/ip_defer.c:65-72 | takes the head away |
| IpDefer.DeferQueue.Turn | src/ip_defer.c:77-98 | one turn of the loop: what is sent, whether it stops, and the queue it leaves |
| IpDefer.DeferQueue.Handler | src/ip_defer.c:74-101 | a run terminates for all answers of ip_send and all packets that it tries to defer meanwhile; it leaves the queue and sends the packets that Drain says, and leaves the inhibit flag set |
| IpDefer.DeferQueue.PushAgain | src/ip_defer.c:34-36 | while the handler runs, whatever ip_send tries to defer again is refused and the queue stays as it is |
| IpDefer.DeferQueue.constructor | src/ip_defer.c:23-26 | the zeroed static queue |
| IpDeferRuns.RunsInOrder | src/ip_defer.c:77-98 | one run drops a front part of the queue and hands it to ip_send in order, but for a head that is out of tries, and with it the packet that stops it |
| IpDeferRuns.StepKeeps | src/ip_defer.c:28-98 | only the head has been tried and its count is 0, 2 or 4 between runs; each packet that left was handed over once or twice |
| IpDeferRuns.RunKeeps | src/ip_defer.c:28-98 | the same in every reachable state |
| IpDeferRuns.TakeIn | src/ip_defer.c:28-54 | ip_defer_push is a step of such a run, and returns 0 exactly when the packet is taken in |
| IpDeferRuns.RunHandler | src/ip_defer.c:74-101 | ip_defer_handler is a step of such a run; every packet it hands to ip_send is one that was taken in, without its data, so it goes out as it was if and only if it was empty |
| IpDeferRuns.InOrderAtMostTwice | src/ip_defer.c:74-101 | over all runs packets go to ip_send first in, first out, none more than twice, and none leaves the queue without having gone |
| IpDeferRuns.TriedTwice | src/ip_defer.c:83-95 | a packet for an unreachable host is handed over in two runs of the handler and dropped in the third |
| IpDeferRuns.InhibitedIffRan | src/ip_defer.c:74-101 | the flag is set if and only if the handler has ever run: the line that clears it is never reached |
| IpDeferRuns.PushedIff | src/ip_defer.c:34-45 | a push takes its packet in if and only if the handler has never run, the packet has at most six bytes and there is room |
| IpDeferRuns.Empties | src/ip_defer.c:77-98 | 39 runs of the handler empty the queue whatever ip_send answers |
| IpDeferRuns.Shorter | src/ip_defer.c:77-98 | every run over a non-empty queue comes closer to that |

## Left out

- Comparators as code: a tree node has an integer key that does not change while it is in a tree, in place of a strict
  total order; `RouteOrder.CmpIsRank` supplies the key for routes, and buffer identifiers are compared whole.
- RB_AUGMENT, which is empty, and RB_FOREACH_FROM.
- SPLAY_NEXT and SPLAY_MINMAX: the same loops as SPLAY with a fixed side; the splay tree has no user in the
  repository.
- Reassembly.AcquireKeeps: the tree of packet buffers is a map from identifier to buffer and not the linked tree,
  whose own theorems are RedBlackTree's; the padding bytes that packet_buf_cmp compares are taken to be zero.
- RouteTable.RouteTable.TreeRemove: the two route trees are kept as their in-order sequences of slots, not as links in
  the entries.
- RouteOrder.InsertWorks: likewise; `RouteOrder.SearchIsFind`, `AttachIsInsert` and `AddedIsInsert` carry search,
  descent and linked insertion over to it, but the rotations on the embedded links are proved for `RedBlackTree.Head`
  alone.
- RouteOrder.RemoveWorks: likewise; `RouteOrder.TakenIsRemove` carries linked removal over.
- RouteTable.RouteTable.Update: requires addresses inside the two half circles, since the comparators are no order
  elsewhere, and a free slot for a new network, since the code follows a null pointer without one.
- RouteTable.RouteTable.Add: requires the same.
- RouteTable.RouteTable.Replace: requires addresses inside the two half circles.
- RouteTable.RouteTable.TreeInsert: likewise.
- FragmentInput.Fragments.FragmentInput: requires that a fragment ends within 65535 bytes, since the guard at
  src/ip_fragment.c:147 looks at the offset alone, and that its header is not longer than the packet, which nothing
  checks (src/ip.c:137-147); and it ends where a datagram is complete: handing it up, replying and sending again
  (lines 184-191) are not modelled.
- FragmentInput.PacketBuf.Store: requires the same of a fragment.
- ReassemblyAnySize.LeavesMark: a protocol handler that writes its reply over the delivered payload changes the bytes
  that stay in the buffer, not the marks.
- FragmentInput.Fragments.Timer: an optional step, since the function is registered nowhere; the atomic test-and-set
  is one step.
- IpSend.IpSendFragments: packets of up to 65535 bytes, the most that the 16-bit length field of its input can say.
- ip_send's own choice between one packet and fragments, which compares the payload instead of the packet size, and
  the fields it fills in; `IpSend.IpSendFragments` takes any packet with a header of 20 to 60 bytes.
- ether_send, ip_send as seen from the deferred queue, clocks and other outside answers are parameters, any value
  allowed.
- EtherFcs.Residue: for a host that stores the least significant byte first, as Ethernet sends the sequence; the other
  byte-level members take the byte order of the host as a parameter.
- QueueRuns.StepKeeps: memory is sequentially consistent; the C code has no barriers, so weaker memory is not covered.
- QueueRuns.CanReceive: a process that is never scheduled gets nothing; how the two take turns is not modelled,
  and every interleaving is allowed.
- queue_clear_from_push_end next to a running consumer: the code has no protocol for it, and it is modelled for one
  caller only.
- TcpConn.TcpInput: the lookup in the connection map, whose comparator adds two memcmp results and is no order; one
  pair of addresses and ports is followed instead.  The packet buffer has room for a header of 60 bytes, which the
  code takes for granted.  The checksum test of incoming segments is compiled out in the code.
- TcpConn.Tcb.TcpFsm: a segment is its header in host form.  The code keeps that form in the buffer itself between
  tcp_ntoh and tcp_hton; here the buffer changes only when a reply is sent.
- Whether the buffer of a segment holds as many bytes as its data offset claims, which the code does not check.
- IpDefer.DeferQueue.Push: data bytes that the slot held before and that a shorter packet leaves are kept, but nothing
  is stated about them.
- The ARP cache, ICMP, UDP, dispatch to protocol handlers, raw sockets, shared memory set-up, signals and threads, and
  the unused list macros of src/queue.h: input and output, or decided elsewhere.
