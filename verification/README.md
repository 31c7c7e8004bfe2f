# Verified core of the kernel's IP stack and floating point emulator

A Dafny model of the algorithms of this kernel that stand on their own, with proofs of what they
are for. `dafny verify dfyconfig.toml` checks all of it.

## What is modelled

**The floating point emulator (`bitsy/`).** `Fpi` holds the registers as the code does, two 28-bit
words with three guard bits, the lowest of them sticky, and changes them in place; `FpiMem` loads
and stores doubles, `FpiWord` words; `FpiDouble` is one instruction: load, operate, store. `FpiSpec`
says what each operation does to a 56-bit significand, `FpiRounding` that this is the correctly
rounded result, and `Ieee` what correctly rounded means: the nearest of the doubles to the exact
value, measured in units of the smallest subnormal, ties to the even one. Registers keep their guard
bits between instructions, so nothing is claimed for chains of operations without a store. A zero
sum has the second operand's sign, which is not always the one IEEE 754 asks for; the NaN given is
always the same, and its quiet bit is clear.

**The routing forest (`ip/Route*.dfy`).** `RouteTree` and `RouteTable` are the three-way trees and
the 1024 hashed roots on values, refined to one map from ranges to routes. `RouteHeap` and
`RouteForest` are the linked nodes and the array of roots, changed in place, each step proved to do
to the tree what the value step does. `RouteRuns` says what each call does to the map, field by
field, `RouteWalk` is listing and flushing, `RouteRead` the text a reader gets through a buffer.
Masks are contiguous, as the range comparison needs; a mask is given by its number of host bits.
Superseding an entry keeps the old entry's tag, and only interface routes are ever counted.

**IL (`ip/Il*.dfy`).** `IlSpec` is one end: every packet, user call and timer firing as a step on
the control block. `IlSystem` puts two ends on a network that keeps every packet ever sent: losing
is never delivering, repeating is delivering again, and any packet may be delivered at any time.
`IlSafety` proves the invariant over both ends and the wire, `IlRuns` what follows for whole runs,
`IlSteps` and `IlCounts` what every event does in every reachable state, down to the header of each
packet, and how a connection ends; `Il` is the control block with its loops. Start ids are not zero,
ids do not wrap, packets are not corrupted, and an end has one connection. When timers fire is left
open. The listening conversation and the one a call creates are one end here.

**Fragmentation and reassembly (`ip/Ip{Cut,Output,Frag,Input,Reassemble,Times,Trip,Width}.dfy`).**
`IpOutput` is the fragment loop over chains of blocks, `IpCut` what its pieces are and the round
trip, `IpFrag` the list of held fragments under arbitrary overlaps, `IpReassemble` the queues of
many datagrams, `IpTimes` how long they are kept, `IpInput` the loops, `IpTrip` a datagram's whole
way from its sender to the packet handed up, and `IpWidth` the 16 bits of an offset. Packets with
nothing in their fragment field never come near the queues. Headers are 20 bytes, fragments are not
empty, a header's length never exceeds the data that came with it, and a datagram's length fits 16
bits. A fragment cut again keeps its more-fragments flag because the flag travels in the offset as
bit 16. The first fragment is used by the length in its header, even if its tail was trimmed for a
later fragment, so with partial overlaps the packet can come out too long: `IpFrag.CompletesWhole`
says exactly when, and `IpCut.TwoCutsMixed` shows it for two cuts of one datagram at different
lengths.

**The Internet checksum (`ip/Checksum*.dfy`)**, against words added with end-around carry (RFC
1071), for either byte order, every alignment and every division into blocks. When the blocks end
before the offset the answer is 0, which is not the checksum of no data.

**Addresses as text (`ip/Ip{Text,Fmt,Forms,Overrun}.dfy`)**: printing with elision (section 2.2 of
RFC 4291), masks, and the parser with the forms only it knows: short addresses and other bases.
`strtoul` skips blanks (spaces and tabs) and a sign, and stops at the largest word; `atoi` is taken
not to overflow. A mask that begins like a v4 address does not survive the round trip.

**ESP (`ip/Esp*.dfy`)**: the stream cipher with its receiver for packets out of order, cipher block
chaining, and wrapping with padding (section 2.4 of RFC 2406). RC4 is a keystream by position, the
block cipher a function with an inverse, the keyed hash any function. Sequence numbers are 32 bits
and may wrap; a packet further than half of that from the receiver is taken for another, and
`EspSpec.RightExactly` says when that does harm. `EspRuns` tells the receiver's state from what
arrived, and `EspSends` what a whole run of packets looks like on the wire.

**The cache of own addresses (`ip/Self*.dfy`, `ip/Ipifc.dfy`)**: hash chains, the two threads every
link is on, and reference counts; `SelfRuns` says what is answered about an address after any calls.
Entries and links are named by address and by number rather than by pointer. The accept-everything
flag is cleared with either null address, though the other may remain; `SelfCache.RemAccepts` gives
the exact condition.

## Model

| member | source | states |
|---|---|---|
| `Ieee.RoundsToUnique` | bitsy/fpi.c:7-28 | at most one double is the nearest, ties to even, of any exact value: "correctly rounded" (section 4.3.1 of IEEE 754-2008) names one result |
| `Ieee.NearestFromNeighbours` | bitsy/fpi.c:7-28 | a magnitude between the two midpoints around it, on the even side of a tie, is the correctly rounded one; infinity counts as the neighbour above the largest double |
| `FpiSpec.RoundCorrect` | bitsy/fpi.c:7-28 | rounding a register whose guard and sticky bits stand for any exact value n/d, half a unit of the sticky bit away at most, stores the correctly rounded double |
| `FpiSpec.OverflowCorrect` | bitsy/fpi.c:77-91 | an exponent past the largest stores infinity exactly for the values that round to it |
| `FpiRounding.AlignedSum` | bitsy/fpi.c:30-56 | aligning by a sticky shift keeps the sum near enough to the exact one to be rounded correctly |
| `FpiRounding.AlignedDifference` | bitsy/fpi.c:30-56 | with exponents two or more apart the aligned difference keeps at least half its width, so at most one bit cancels |
| `FpiRounding.CancelOnce` | bitsy/fpi.c:167-171 | shifting that one bit back loses nothing rounding needs |
| `FpiRounding.AddCorrect` | bitsy/fpi.c:100-134 | the sum of any two loaded magnitudes comes out correctly rounded |
| `FpiRounding.SubCorrect` | bitsy/fpi.c:136-172 | the difference of any two loaded magnitudes comes out correctly rounded, and the comparison picks the larger |
| `FpiRounding.ProductRegCorrect` | bitsy/fpi.c:216-243 | taking the top words of the 112-bit product, with everything below gathered into the sticky bit, stays near the exact product |
| `FpiRounding.MulCorrect` | bitsy/fpi.c:182-245 | the product of any two loaded non-zero magnitudes comes out correctly rounded, through normalising, denormalising and overflow |
| `FpiRounding.RenormCorrect` | bitsy/fpi.c:77-91 | denormalising by a sticky shift, and overflowing, keep the result correctly rounded |
| `FpiRounding.DivCorrect` | bitsy/fpi.c:247-285 | the quotient of any two loaded non-zero magnitudes comes out correctly rounded |
| `Fpi.FpiRound` | bitsy/fpi.c:7-28 | the words of the register become those of the round-half-even step, exponent carry included |
| `Fpi.MatchExponents` | bitsy/fpi.c:30-56 | the two-word shift in place is a sticky shift of the 56-bit significand by any distance |
| `Fpi.Shift` | bitsy/fpi.c:58-68 | a one-bit left shift across both words |
| `Fpi.Normalise` | bitsy/fpi.c:70-75 | shifting until the hidden bit is up; terminates for every non-zero significand |
| `Fpi.Renormalise` | bitsy/fpi.c:77-91 | denormals are shifted back with a sticky bit, overflow becomes infinity |
| `Fpi.FpiAdd` | bitsy/fpi.c:100-134 | what addition leaves in the register for every pair of classes |
| `Fpi.FpiSub` | bitsy/fpi.c:136-172 | what subtraction leaves for every pair of classes; for finite operands the signed difference of the larger and the smaller |
| `Fpi.MulWords` | bitsy/fpi.c:174-214 | the seven column sums of 14-bit chunks, with their spills, rebuild the exact 112-bit product |
| `Fpi.FpiMul` | bitsy/fpi.c:182-245 | what multiplication leaves for every pair of classes |
| `Fpi.DivLoop` | bitsy/fpi.c:268-280 | the bit-serial loop ends, with a quotient of 55 bits, a remainder below the divisor, and quotient times divisor plus remainder equal to the scaled dividend |
| `Fpi.DivNormalised` | bitsy/fpi.c:263-284 | the register ends up with that quotient and, as its sticky bit, whether anything remained |
| `Fpi.FpiDiv` | bitsy/fpi.c:247-285 | what division leaves for every pair of classes |
| `FpiMem.FpiD2i` | bitsy/fpimem.c:26-39 | a double in memory loads as its exact magnitude, class and sign |
| `FpiMem.FpiI2d` | bitsy/fpimem.c:100-115 | storing rounds any register whose exponent has a field and packs its rounded code; only a NaN of all ones with guard bits set, which nothing loads or computes, rounds into the sign bit |
| `FpiDouble.FAdd` | bitsy/fpiarm.c:75-79 | for all finite doubles, load, add, store is the exact sum correctly rounded; a zero has the second operand's sign, the one section 6.3 of IEEE 754-2008 asks for if and only if that is plus or both have it; infinities as section 6.1 asks, and one fixed NaN for NaNs and invalid operations |
| `FpiDouble.FSub` | bitsy/fpiarm.c:81-86 | the same for the difference |
| `FpiDouble.FMul` | bitsy/fpiarm.c:95-99 | the same for the product of all doubles |
| `FpiDouble.FDiv` | bitsy/fpiarm.c:101-105 | the same for the quotient of all doubles, division by zero included |
| `FpiDouble.CmpCorrect` | bitsy/fpi.c:287-300 | the comparison orders two registers, infinities included, as their values are ordered if and only if they are not zeros of different sign |
| `FpiDouble.CmpZeros` | bitsy/fpi.c:287-300 | plus zero and minus zero compare as different |
| `FpiDouble.CmpNans` | bitsy/fpi.c:287-300 | a NaN compares as beyond infinity of its own sign, and any two as equal |
| `FpiWord.FpiW2i` | bitsy/fpimem.c:41-71 | counting bits and splitting over the two halves gives the word's sign and its magnitude as a normalised register; the least word, whose negation wraps, leaves a negative significand |
| `FpiWord.WordExact` | bitsy/fpimem.c:62-70 | that register is worth exactly the word, for every magnitude a word holds |
| `FpiWord.FpiI2w` | bitsy/fpimem.c:117-136 | the register is rounded to a double, then to its whole part with its sign, the largest word when it does not fit |
| `FpiWord.WholeIs` | bitsy/fpimem.c:124-132 | the whole part is the register's exact value with its fraction cut off, for every exponent that fits a word |
| `FpiWord.DropHalves` | bitsy/fpimem.c:129-132 | taking the whole part from the two halves apart is shifting the significand they make up |
| `FpiWord.RoundTrip` | bitsy/fpimem.c:41-71 | a word comes back as it went if and only if it is not the least one, which comes back one greater |
| `RouteTree.CompareMeans` | ip/iproute.c:109-144 | each answer means its relation of the two ranges' addresses, and "contained" is right exactly when the ranges do not overlap in part |
| `RouteTree.BalanceKeeps` | ip/iproute.c:201-231 | a rotation keeps the ordering invariant and the set of routes |
| `RouteRuns.BalanceTurns` | ip/iproute.c:174-231 | a side recorded as deeper by two or more has its root turned up, and the depths of the nodes touched are one more than their deepest child's |
| `RouteTree.LookupBest` | ip/iproute.c:496-504 | the search loop's answer is the most specific route of the tree that contains the address, nil exactly when none does |
| `RouteTree.AddNodeFresh` | ip/iproute.c:236-286 | inserting a new range keeps the ordering invariant and loses no route: what is in the tree or displaced is what was there and the new route |
| `RouteTree.AddNodeBack` | ip/iproute.c:158-172 | a node walked back in displaces nothing and adds itself and what is inside it |
| `RouteTree.AddNodeOver` | ip/iproute.c:262-276 | an equal range is superseded or counted in place (field by field: `RouteRuns.AfterAdd`), and nothing else changes |
| `RouteTree.WalkAddKeeps` | ip/iproute.c:158-172 | walking a subtree back in adds exactly its routes |
| `RouteTree.DrainKeeps` | ip/iproute.c:311-319 | draining the queue puts back every displaced route, and it ends |
| `RouteTree.BucketAddRefines` | ip/iproute.c:300-320 | insertion with drain changes a tree as adding to the map of ranges changes the map |
| `RouteTree.CutKeeps` | ip/iproute.c:371-397 | the search finds a range exactly when it is there, and what hangs below can be walked back in |
| `RouteTree.SetInfoKeeps` | ip/iproute.c:418-419 | dropping one of several references changes that route's count and nothing else |
| `RouteTree.OrphansDrainable` | ip/iproute.c:419-425 | the three children of a removed node can be walked back without displacing anything |
| `RouteTree.BucketDelRefines` | ip/iproute.c:413-434 | deletion drops one reference of exactly that range, and removes it with the last, every other route unchanged |
| `RouteTable.V4H` | ip/iproute.c:288 | the bucket of an address is one of the 1024 |
| `RouteTable.CoveringCidr` | ip/iproute.c:295-298 | any address under any contiguous mask gives a block of 32-bit addresses that holds the address |
| `RouteTable.MaskedIs` | ip/iproute.c:300-302 | an address and-ed with a mask, and that or-ed with the mask's complement, are the ends of the block around the address |
| `RouteTable.ConvRoute` | ip/iproute.c:628-631 | the mask found again from the two ends of a block is its mask, and with the first address it makes the same block |
| `RouteTable.CidrConv` | ip/iproute.c:745-757 | deleting by the address and mask read back from a route deletes its own range |
| `RouteTable.CidrLaminar` | ip/iproute.c:109-144 | any two such blocks are apart, equal or nested |
| `RouteTable.HashInside` | ip/iproute.c:288-300 | every address of a block hashes between the hashes of the block's ends, whatever the block's size |
| `RouteTable.TableAddKeeps` | ip/iproute.c:290-323 | after an addition all covered buckets hold agreeing copies, and the forest stands for the changed map |
| `RouteTable.TableDelKeeps` | ip/iproute.c:399-438 | the same for a deletion |
| `RouteTable.TableLookup` | ip/iproute.c:495-505 | searching the one bucket of an address finds the most specific route of the whole map |
| `RouteTable.LookupAfterRun` | ip/iproute.c:290-323 | after any sequence of additions and deletions, for every address, a lookup gives the most specific route of the abstract map, or nil when there is none |
| `RouteTable.RunRefs` | ip/iproute.c:262-276 | in every run each route has a reference, and only interface routes have more than one |
| `RouteTable.DelExact` | ip/iproute.c:413-434 | deleting leaves every other range its type, tag, gate and count, and the range itself goes exactly with its last reference |
| `RouteRuns.AfterAdd` | ip/iproute.c:236-323 | after any run, an addition concerns just the block of its address: a new one gets the gate, type, tag of four octets and one reference; one there that is no interface's takes the new type and gate and keeps tag and references; an interface's only counts another interface's |
| `RouteRuns.AfterDel` | ip/iproute.c:399-438 | after any run, a deletion takes one reference from the block, which goes with its last, and touches nothing else |
| `RouteRuns.FlushLeaves` | ip/iproute.c:764-808 | a flush leaves exactly the routes that are an interface's or carry another tag, each as it was |
| `RouteRuns.HashBits` | ip/iproute.c:288 | the bucket of an address is the ten bits after its first five |
| `RouteWalk.WalkOnce` | ip/iproute.c:682-724 | reading the whole table reports each route exactly once, however many buckets hold it |
| `RouteWalk.VictimFound` | ip/iproute.c:764-782 | the flush finds a route to delete exactly when one is left |
| `RouteWalk.FlushOne` | ip/iproute.c:744-758 | deleting what the flush found removes that route and makes the table smaller |
| `RouteWalk.FlushedAll` | ip/iproute.c:801-808 | when no bucket has anything left to flush, exactly the matching non-interface routes are gone |
| `RouteHeap.BalanceTree` | ip/iproute.c:201-231 | the pointer rotation: same nodes, and the tree they form is the balanced one |
| `RouteHeap.AddNode` | ip/iproute.c:236-286 | the recursive insertion on linked nodes does what insertion on trees does, leaving the displaced subtree intact and apart |
| `RouteHeap.WalkAdd` | ip/iproute.c:158-172 | walking linked subtrees back in, on the nodes themselves |
| `RouteHeap.DrainQueue` | ip/iproute.c:311-319 | the loop over the queue; ends |
| `RouteHeap.AddToTree` | ip/iproute.c:300-320 | one turn of the addition loop on one bucket's nodes |
| `RouteHeap.V4Lookup` | ip/iproute.c:495-505 | the loop over a moving pointer gives the node of the tree's answer |
| `RouteHeap.LookNode` | ip/iproute.c:371-397 | the pointer returned is the place the wanted node hangs from, or there is no such node |
| `RouteHeap.Plugged` | ip/iproute.c:371-397 | the nodes above a place and the subtree at it make the whole tree again |
| `RouteHeap.DelFromTree` | ip/iproute.c:413-434 | one turn of the deletion loop on one bucket's nodes |
| `RouteForest.Forest.V4AddRoute` | ip/iproute.c:290-323 | the forest, changed in place in every covered bucket, stands for the map with the route added, whose fields `RouteRuns.AfterAdd` gives |
| `RouteForest.Forest.V4DelRoute` | ip/iproute.c:399-438 | the forest stands for the map after one reference is dropped |
| `RouteForest.Forest.V4Lookup` | ip/iproute.c:484-505 | the node found is the most specific route of the map |
| `RouteForest.Forest.IpWalkRoutes` | ip/iproute.c:709-724 | what is printed is the lines of a listing that holds every route of the map once and nothing else, for a buffer of any size |
| `RouteForest.Forest.RouteRead` | ip/iproute.c:727-740 | reading n bytes from an offset gives the first n - 1 bytes of the text there, or what there is, if every line before the offset fits the buffer |
| `RouteRead.WalkText` | ip/iproute.c:653-707 | printing line by line, with the skipped part taken out again, is a window of the whole text |
| `RouteRead.NeverFull` | ip/iproute.c:687-688 | as a byte always stays for the end of a line, a buffer that takes anything never stops the walk |
| `RouteRead.LongLine` | ip/iproute.c:668-676 | a buffer shorter than a line to be skipped loses count and reads nothing where there is text |
| `RouteForest.Forest.RouteFlush` | ip/iproute.c:764-782 | deletes one matching route, or changes nothing when there is none |
| `RouteForest.Forest.Flush` | ip/iproute.c:801-808 | the flush ends, and the forest stands for the map without the matching non-interface routes |
| `IlSafety.AckToKeeps` | ip/il.c:497-526 | an acknowledgement that the peer could have sent leaves the queue consecutive up to next - 1 and drops only what was delivered |
| `IlSafety.InsertKeeps` | ip/il.c:918-967 | the out of order queue stays strictly ascending and gains only the new packet |
| `IlSafety.PullKeeps` | ip/il.c:868-916 | pulling up passes the next messages in order, stops past the next id, and takes the next id if it is there |
| `IlSafety.AcceptKeeps` | ip/il.c:722-732 | receiving data keeps all invariants, and a packet no further than the next id is covered afterwards |
| `IlSafety.InputKeeps` | ip/il.c:528-613 | every packet that arrives in any state keeps the invariant, refusals and new calls included |
| `IlSafety.KickKeeps` | ip/il.c:335-411 | a message written keeps the invariant |
| `IlSafety.TickKeeps` | ip/il.c:1122-1194 | every timer firing keeps the invariant |
| `IlSafety.StepAKeeps` | ip/il.c:629-783 | every step of an end keeps the invariant of both ends and of everything on the wire |
| `IlRuns.DeliveredPrefix` | ip/il.c:868-916 | in every run over a network that loses, repeats and reorders, what is passed up at one end is a prefix of what was written at the other |
| `IlRuns.StartsAgree` | ip/il.c:650-700 | an established end's remote start is the other's start, and its last received id counts exactly what it passed up |
| `IlRuns.NothingLost` | ip/il.c:435-452 | while both ends are established each message sent is in the unacked queue or delivered; the queue is consecutive up to next - 1 and its head at most one past what was received |
| `IlRuns.QueueBounded` | ip/il.c:918-967 | the out of order queue is strictly ascending inside the window and holds fewer messages than the window |
| `IlRuns.StaysEstablished` | ip/il.c:712-765 | in every reachable state, what takes an established end out of that state is exactly the user's close, a close from the peer that acknowledges something sent, the death timer, and a timeout after too many retransmissions |
| `IlSteps.Transitions` | ip/il.c:528-783 | in every reachable state every possible event, packets, user calls and timers, leads to the state this table gives |
| `IlSteps.LeavesClosing` | ip/il.c:769-776 | an end that is closing becomes closed exactly by a close that acknowledges its own or by a timeout after more than 16 retransmissions |
| `IlSteps.Shutdown` | ip/il.c:755-776 | from every state with both ends up a hang-up and three deliveries, with no timer, close both ends |
| `IlSteps.ShutdownBoth` | ip/il.c:755-776 | so they do when both hang up at once |
| `IlSteps.Headers` | ip/il.c:970-1030 | every packet sent in every reachable state carries the sender's ids as they then are, acknowledges what it has received, and a query names the slot that holds the highest id sent; only queries and answers name slots, and only data packets carry data |
| `IlSteps.Draws` | ip/il.c:528-783 | which packets an arriving packet draws, in every reachable state |
| `IlSteps.RingsOut` | ip/il.c:1122-1194 | which packets the timers send, in order, with at most 16 retransmissions |
| `IlSteps.Acknowledges` | ip/il.c:497-526 | every packet of an established connection takes from the unacked queue exactly what it acknowledges |
| `IlSteps.Takes` | ip/il.c:918-967 | a message that arrives is taken exactly when it is at most 20 past the last passed up; none held is lost, and none waits that could be passed up |
| `IlSteps.AckSent` | ip/il.c:1165-1167 | what a delayed acknowledgement compares with is the acknowledgement of the last packet sent, but for retransmissions and refusals |
| `IlSteps.NextSlot` | ip/il.c:1333-1348 | eight slots are used one after the other, round and round |
| `IlCounts.Counts` | ip/il.c:497-526 | in every reachable state the count of retransmissions goes up by one with each, and back to none when a call begins, comes up, or has a message acknowledged |
| `IlCounts.Afresh` | ip/il.c:1196-1219 | a call made or taken starts with the id picked, empty queues and no count |
| `IlCounts.Emptied` | ip/il.c:755-765 | in every run an end that is closing holds no messages |
| `IlCounts.Listens` | ip/il.c:306-333 | only an announcement has an end listen, and only its own hang-up ends that |
| `IlRuns.Handshake` | ip/il.c:1221-1271 | a call to a listener comes up for any two starts |
| `IlRuns.Mirror` | ip/il.c:629-783 | a reachable state stays reachable with the ends exchanged, so that each statement holds of either end |
| `IlRuns.QueryAnswered` | ip/il.c:727-732 | a delivered retransmission of the head is answered by a state that covers it |
| `IlRuns.StateShrinks` | ip/il.c:742-753 | that state strictly shrinks the unacked queue |
| `IlRuns.StateRetransmits` | ip/il.c:742-753 | a state that leaves something sent before its query unacknowledged draws a retransmission of the head |
| `IlRuns.QuerySent` | ip/il.c:1166-1176 | a query carries the slot that remembers the highest id sent |
| `IlRuns.Recover` | ip/il.c:785-827 | from every state with both ends up and something unacknowledged, a query exchange of at most five steps shrinks the queue |
| `IlRuns.AlwaysRecovers` | ip/il.c:1122-1194 | from every reachable state with both ends up some run delivers and acknowledges everything sent |
| `Il.Ilcb.IlAckTo` | ip/il.c:497-526 | the loop over the queue drops exactly what is covered, and resets the retransmission count if it drops anything |
| `Il.Ilcb.IlOutOfOrder` | ip/il.c:918-967 | the search and the linking in put the packet at its sorted place, or drop it |
| `Il.Ilcb.IlPullup` | ip/il.c:868-916 | the loop passes up and unlinks as the specification does |
| `Il.Ilcb.IlRexmit` | ip/il.c:785-827 | sends the head again as a data query under the next query slot |
| `Il.Ilcb.IlNextQt` | ip/il.c:1333-1348 | the next of eight slots, and slot zero, hold the highest id sent |
| `Il.Ilcb.IlProcess` | ip/il.c:629-783 | the state machine on the control block makes the step of the specification and sends its packets; what that step is, event by event, is `IlSteps.Transitions`, `Draws` and `Headers` |
| `Il.Ilcb.IlInput` | ip/il.c:528-613 | finding or opening the conversation, or refusing |
| `Il.Ilcb.IlConnect` | ip/il.c:1196-1271 | a call out: a fresh control block and a sync |
| `Il.Ilcb.IlAnnounce` | ip/il.c:1259-1262 | waiting for calls |
| `Il.Ilcb.IlKick` | ip/il.c:335-411 | the message is sent under the next id and kept on the unacked queue |
| `Il.Ilcb.IlClose` | ip/il.c:306-333 | the user's close in each state |
| `Il.Ilcb.IlAckProc` | ip/il.c:1122-1194 | one conversation's turn of the timer process |
| `Il.Ilcb.IlAdvise` | ip/il.c:1295-1331 | an unreachable peer ends a call that has not come up |
| `IpFrag.LinkKeeps` | ip/ip.c:643-694 | linking in a fragment under any overlap leaves the list sorted and disjoint, its own bytes at its own offsets and every other held byte where it was; a dropped one was covered |
| `IpFrag.RetainedInPlace` | ip/ip.c:643-694 | for any sequence of non-empty fragments, overlapping as they may, the list is sorted and disjoint and every held byte is at the offset it arrived for |
| `IpWidth.OffsetsFit` | ip/ip.c:643-694 | fragments that end in the first 64K leave every held offset inside 16 bits |
| `IpWidth.LinkWraps` | ip/ip.c:676-684 | linking in a fragment makes an offset wider than 16 bits if and only if it ends past 64K inside one that was held and starts no earlier |
| `IpWidth.OffsetWraps` | ip/ip.c:683 | 100 bytes at 65520 and then 40 at 65512: the offset 65552 reads 16 |
| `IpFrag.WholeMeans` | ip/ip.c:696-727 | the completeness search succeeds exactly when no byte of the datagram is missing, and then finds all of it in order |
| `IpFrag.JoinedWhole` | ip/ip.c:704-724 | the packet handed up is the datagram if and only if the first fragment still has the length its header says |
| `IpFrag.NothingEarly` | ip/ip.c:570-732 | no packet comes out while a byte is missing, in any order and with any duplicates and overlaps |
| `IpFrag.CompletesWhole` | ip/ip.c:570-732 | for any overlaps and order, when the last missing byte arrives a packet does come out, and it is the datagram if and only if nothing that came after the last of the first fragments starts inside that fragment and ends beyond it |
| `IpFrag.NestedWhole` | ip/ip.c:570-732 | when any two of the fragments are apart or one inside the other, it is exactly the datagram |
| `IpCut.FieldBits` | ip/ip.c:345-395 | the offset is the low 13 bits of the fragment field in units of 8, the flag the bit above them, and setting the flag leaves every other bit alone |
| `IpCut.CutSplits` | ip/ip.c:345-395 | the fields written, with the old more-fragments bit carried as bit 16 of the offset, read back as the pieces of the cut: only the last has the flag of what was cut |
| `IpCut.SplitParts` | ip/ip.c:345-395 | every piece stands at its offset in the datagram with its bytes and the right flag |
| `IpCut.OneCut` | ip/ip.c:345-395 | with one cut, every byte has arrived exactly when every piece has |
| `IpCut.CutReassemble` | ip/ip.c:327-397 | a datagram cut for any medium, its pieces cut again each in at most one way, fed in any order with any duplicates: nothing comes out early, and then exactly the datagram does |
| `IpCut.TwoCutsMixed` | ip/ip.c:704-706 | pieces of two different cuts of one datagram: the packet that comes out is longer than the datagram |
| `IpOutput.IpOput4` | ip/ip.c:240-397 | the length, size and do-not-fragment checks and the cut, over any chain of blocks |
| `IpOutput.FragmentLoop` | ip/ip.c:345-395 | copying across block boundaries sends the pieces of the cut |
| `IpOutput.SentPieces` | ip/ip.c:327-397 | a packet too long for its medium goes out as the pieces of one cut |
| `IpOutput.PassedPieces` | ip/ip.c:240-250 | a fragment passed on goes out as the pieces of one cut of it, whatever padding follows it |
| `IpOutput.NothingSent` | ip/ip.c:240-326 | nothing goes out exactly when a packet passed on is shorter than its header says, one is of 64K or more, or one too long for its medium may not be cut or the medium takes less than 28 octets |
| `IpOutput.DontFragment` | ip/ip.c:314-320 | with the do-not-fragment bit set the packet goes out as it is or not at all, and the error is called for exactly when it is complete, shorter than 64K and too long for its medium |
| `IpOutput.FitsMedium` | ip/ip.c:293-397 | whatever goes out fits its medium |
| `IpReassemble.PoolKeeps` | ip/ip.c:592-642 | used and free queues add up to the fixed number, no two are for one datagram, and none in use is empty |
| `IpReassemble.FieldParts` | ip/ip.c:607-620 | a packet is taken for unfragmented exactly when offset, more-fragments and the reserved bit are all zero, whether fragmenting is forbidden or not |
| `IpReassemble.OwnQueue` | ip/ip.c:589-642 | a packet comes out exactly when the fragments held for its own datagram complete it |
| `IpReassemble.OtherQueues` | ip/ip.c:596-605 | an arrival for another datagram leaves a list alone unless it is given up: exactly when it is stale and the search passes it, or it is the oldest, none is free or stale, and the arrival needs a queue |
| `IpReassemble.Interleaved` | ip/ip.c:526-533 | in every run, whatever goes stale or is pushed out, the list held for a datagram is what its own fragments since its queue was last given up or ended come to; packets with nothing in their fragment field never come near the queues |
| `IpReassemble.NextOut` | ip/ip.c:526-535 | the next packet to come out, in any run, is one that is not a fragment, or what those fragments and the new one come to |
| `IpTimes.AgeIs` | ip/ip.c:766-784 | in every run a queue's age is 30000 more than the time the fragment came that opened it |
| `IpTimes.StaleAfter` | ip/ip.c:599-604 | in every run an arrival frees a queue as stale only if it comes more than 30000 after the fragment that opened it |
| `IpTimes.NoneStale` | ip/ip.c:596-605 | and when an arrival opens a queue, none is left that was opened more than 30000 before |
| `IpTimes.NewestFirst` | ip/ip.c:766-784 | in every run the queues stand newest first |
| `IpTimes.PushedOut` | ip/ip.c:771-778 | in every run a queue is pushed out only when, with the arrival, fragments of more datagrams than there are queues came in the last 30000 |
| `IpTimes.OldestOut` | ip/ip.c:771-778 | and it is the one opened first |
| `IpTrip.EndToEnd` | ip/ip.c:240-397 | a datagram sent over any medium of at least 28 bytes, its packets padded and cut again by gateways in at most one way each, lost, repeated, reordered and mixed with any other traffic: a packet comes out exactly when the datagram arrives whole or a fragment leaves no byte missing of those held, and it is always the datagram |
| `IpTrip.Delivered` | ip/ip.c:570-732 | if every byte arrives and the queue is not given up, the datagram comes out |
| `IpTimes.DeliveredInTime` | ip/ip.c:570-732 | if every byte arrives, all within 30000 of the first fragment, and no more datagrams than there are queues have fragments in any 30000, the datagram comes out |
| `IpTrip.UpTwice` | ip/ip.c:526-533 | a whole datagram between the two fragments of a copy of it: it is handed up twice, as the queue is not touched |
| `IpInput.LinkIn` | ip/ip.c:643-694 | the search, the trimming and the relinking |
| `IpInput.FindWhole` | ip/ip.c:696-728 | the loop that looks for a complete packet |
| `IpInput.JoinAll` | ip/ip.c:703-724 | the loop that strips headers and adds up lengths |
| `IpInput.Reassembler.IpFragAllo4` | ip/ip.c:766-784 | a queue from the free list, the oldest in use given up when there is none |
| `IpInput.Reassembler.Ip4Reassemble` | ip/ip.c:570-732 | one arriving fragment or packet, on the lists themselves; how long a queue lasts is `IpTimes.AgeIs` |
| `IpInput.Reassembler.IpIput4` | ip/ip.c:526-535 | only a packet with something in its fragment field is reassembled |
| `ChecksumSpec.SumIsFold` | ip/ptclbsum.c:64-71 | adding 16-bit words with end-around carry is summing octets by weight and folding once (sections 1 and 2 of RFC 1071) |
| `ChecksumSpec.StoredChecks` | ip/ipaux.c:196-251 | a checksum stored in an even-offset field that was zero makes the checksum of the whole zero |
| `ChecksumSpec.Numbers` | ip/ptclbsum.c:64-71 | the example of section 3 of RFC 1071 comes to the sum given there |
| `Checksum.PtclBsum` | ip/ptclbsum.c:13-72 | on either byte order and alignment the result is the one's complement sum of the octets |
| `Checksum.PtclCsum` | ip/ipaux.c:196-251 | over any chain of blocks, alignments and odd or even splits the result is the RFC 1071 checksum of the octets from the offset on, and 0 when skipping to the offset leaves the chain |
| `Checksum.RunsOutWrong` | ip/ipaux.c:208-209 | that 0 is not the checksum of no data |
| `Checksum.NoWrap` | ip/ptclbsum.c:16-17 | the sums of up to 64K octets stay inside 32 bits |
| `IpText.GroupsBack` | ip/ipaux.c:308-322 | the text with any one run of zero groups left out, at the front, in the middle or at the end, parses to the same address |
| `IpFmt.DottedBack` | ip/ipaux.c:288-294 | the dotted form of a v4 address parses to the same address |
| `IpFmt.FindElision` | ip/ipaux.c:296-306 | the run left out is the longest run of zero groups, and the first of those |
| `IpFmt.FmtI` | ip/ipaux.c:288-322 | the text of every 16-byte address fits the buffer and parses back to it |
| `IpForms.ShownPrinted` | ip/ipaux.c:288-322 | an address is printed in digits, small letters, colons and dots |
| `IpFmt.ParseIpText` | ip/ipaux.c:454-491 | the parsing loop, elision and v4 part included |
| `IpOverrun.ReadPast` | ip/ipaux.c:464-486 | the loop writes past the 16 bytes, by two, if and only if the text has a dotted part after exactly seven groups |
| `IpOverrun.SevenAndDots` | ip/ipaux.c:464-471 | any seven groups with a dotted address behind them do that |
| `IpFmt.V4ParseIp` | ip/ipaux.c:361-393 | up to four numbers, and the old classes |
| `IpForms.ShortForms` | ip/ipaux.c:361-393 | one, two or three numbers, whatever they are: those after the network's own are the last of the host part |
| `IpForms.TenOne` | ip/ipaux.c:361-393 | "10.1" is 10.0.0.1 |
| `IpForms.OtherBases` | ip/ipaux.c:369 | every word may be given in base 16 behind 0x and in base 8 behind 0 |
| `IpForms.BlanksBefore` | ip/ipaux.c:369 | blanks in front are skipped, and a number too large is the largest word |
| `IpForms.SignBefore` | ip/ipaux.c:369 | a plus sign is skipped and a minus sign negates the word |
| `IpFmt.PrefixLength` | ip/ipaux.c:338-351 | the length is found exactly for the masks of leading ones |
| `IpFmt.FmtM` | ip/ipaux.c:335-355 | a prefix mask prints as a slash and its length, any other as an address |
| `IpFmt.ParseIpMask` | ip/ipaux.c:497-524 | the mask loop of the slash form, and the old form |
| `IpForms.MaskBits` | ip/ipaux.c:497-524 | of the mask of n ones just the first n bits are set |
| `IpForms.SlashForms` | ip/ipaux.c:497-515 | a slash and any number sets that many bits, at most 128, and none below zero |
| `IpFmt.MaskBack` | ip/ipaux.c:497-524 | a mask's text parses back to the mask if and only if the mask does not begin like a v4 address; every prefix mask does |
| `IpFmt.V4MaskLost` | ip/ipaux.c:517-522 | a mask that begins like a v4 address and comes back under 96 ones |
| `EspSpec.ReceiveRight` | ip/esp.c:753-815 | whatever arrives is decrypted at the place with its sequence number nearest to the receiver, if that is next, not too far ahead, or late but not before the old state, and the receiver stays in step; a packet within half the range of numbers comes out as it was sent or not at all |
| `EspSpec.RightExactly` | ip/esp.c:753-815 | whatever the keystream and the data, nothing wrong is taken if and only if the place the receiver takes is the right one or cannot be accepted |
| `EspSpec.AnyOrder` | ip/esp.c:753-823 | after any packets in any order, however late and however often sequence numbers wrapped, the same of the next one: in range, exactly the acceptable packets are taken and each decrypts to what was encrypted (which those are: `EspRuns.RunTakes`) |
| `EspSpec.ShortRun` | ip/esp.c:753-823 | while a sender has sent less than half the range, every packet comes in range, in every order |
| `EspRuns.SentIs` | ip/esp.c:815-821 | every packet goes out under its place in the stream, combined with the keystream from there on |
| `EspRuns.RunMatches` | ip/esp.c:753-823 | after any run in range the receiver's state is told by what arrived: it stands at the end of the furthest packet taken, and the old state where the first gap remembered began, moved up to at most 102400 behind |
| `EspRuns.RunTakes` | ip/esp.c:753-823 | after any run in range a packet comes out as it was sent exactly when it is next, at most 10485760 ahead, or late but not before the first gap remembered nor more than 102400 behind |
| `EspRuns.NoneFurther` | ip/esp.c:776-799 | no packet taken ends further on than the receiver stands |
| `EspRuns.Furthest` | ip/esp.c:776-799 | and it stands at the end of one of them |
| `EspRuns.GapStays` | ip/esp.c:786-799 | a gap stays remembered until the receiver is more than 102400 past its end |
| `EspRuns.LateTaken` | ip/esp.c:800-813 | a packet that another ran ahead of is still taken when it comes, whatever came in between, while it is at most 102400 behind |
| `EspRuns.Swapped` | ip/esp.c:753-823 | two packets that change places, after any number in sequence, both come out |
| `EspRuns.ShortRange` | ip/esp.c:753-823 | while a sender has sent less than half the range every run is in range |
| `EspSpec.ChainBack` | ip/esp.c:695-728 | cipher block chaining is undone by its inverse |
| `EspSends.Chained` | ip/esp.c:714-724 | every block is enciphered against the enciphered one before it, the first against the vector |
| `EspSends.Vectors` | ip/esp.c:714-724 | in every run the vector a packet carries is the last block of the packet before it |
| `EspSends.VectorLeft` | ip/esp.c:703-713 | what arrives under DES leaves its last block as the vector |
| `EspWrap.Pad` | ip/esp.c:264-269 | the padding is less than a unit and makes payload, padding and tail whole units |
| `EspWrap.WrapBack` | ip/esp.c:223-415 | what is wrapped comes out again, data and next header, except that a packet with no data or one the stream has left behind is dropped |
| `EspSends.PacketSize` | ip/esp.c:259-278 | vector or sequence number, payload, padding and tail come to the least number of whole units that holds them, for each cipher |
| `EspSends.LongOctets` | ip/esp.c:815-821 | words go out most significant octet first |
| `EspSends.Numbered` | ip/esp.c:290-292 | the n-th packet of every run has the end's own sequence number plus n, in 32 bits, and its index |
| `EspSends.Consecutive` | ip/esp.c:292 | each packet's sequence number is one more than the last's |
| `EspSends.AllThrough` | ip/esp.c:223-415 | in every run whose packets arrive as they were sent, each payload comes out with its next header; those with no data are dropped and harm none of the others |
| `EspSends.Refused` | ip/esp.c:353-380 | a packet too short, with a wrong hash, or not of whole units is dropped and changes nothing |
| `Esp.Rc4` | ip/esp.c:771 | the buffer from a place on is combined with the keystream, the rest left alone |
| `Esp.Espcb.DesCipher` | ip/esp.c:695-728 | both directions in place, block after block, with the vector kept for the next packet |
| `Esp.Espcb.Rc4Encipher` | ip/esp.c:815-821 | sequence number in front, keystream behind |
| `Esp.Espcb.Rc4Decipher` | ip/esp.c:763-814 | the three cases of an arriving packet, in place; what state they leave is `EspRuns.RunMatches` |
| `Esp.Espcb.EspKick` | ip/esp.c:223-304 | the packet made of a payload |
| `Esp.Espcb.EspIput` | ip/esp.c:339-396 | length, hash, units, cipher and trimming of one that arrives |
| `SelfCache.AddKeeps` | ip/ipifc.c:892-949 | an addition leaves every link on both its chains, one link at most for a pair, and no entry without links |
| `SelfCache.RemKeeps` | ip/ipifc.c:1004-1081 | so does a removal |
| `SelfCache.AddCounts` | ip/ipifc.c:892-949 | the pair's references go up by one and no other's change |
| `SelfCache.RemCounts` | ip/ipifc.c:1004-1081 | the pair's references go down by one if there are any and no other's change |
| `SelfCache.InTable` | ip/ipifc.c:901-913 | an address is in its hash chain exactly when some interface has it |
| `SelfCache.FirstLowers` | ip/ipifc.c:615-617 | removing the address of an interface's first link lowers that interface's references by one |
| `SelfCache.RemAccepts` | ip/ipifc.c:1075-1077 | the accept-everything flag stays right if and only if what is removed is not the only reference to a null address while the other null address is among the stack's own |
| `SelfCache.NullForgotten` | ip/ipifc.c:1075-1077 | both null addresses added and one removed: the flag is off though the other remains |
| `SelfRuns.AddKinds` | ip/ipifc.c:892-949 | an addition gives its kind to an address no interface had, and every other entry keeps its own |
| `SelfRuns.RemKinds` | ip/ipifc.c:1004-1081 | a removal leaves every entry that stays its kind |
| `SelfRuns.RunCounts` | ip/ipifc.c:892-949 | after any run the references of a pair are its additions less the removals that found one |
| `SelfRuns.RunOwned` | ip/ipifc.c:901-913 | after any run an address is in the table exactly when some pair of it has references |
| `SelfRuns.EntryIs` | ip/ipifc.c:901-913 | of an address in the table one addition entered it, and it has been there ever since |
| `SelfRuns.RunKinds` | ip/ipifc.c:901-913 | after any run the kind of an address is that of the addition that entered it |
| `SelfRuns.RunFlag` | ip/ipifc.c:892-949 | after any run packets for everyone are taken exactly when a null address was entered and none has gone since |
| `SelfRuns.RunAnswer` | ip/ipifc.c:1138-1154 | after any run the answer about an address is the kind it was entered with; about any other, unicast while packets for everyone are taken and else nothing |
| `SelfRuns.Nulls` | ip/ipifc.c:915-917 | the null addresses are all zeros and ::ffff:0.0.0.0 |
| `SelfRuns.HashOctets` | ip/ipifc.c:62 | the hash chain of an address is told by its last two octets |
| `Ipifc.SelfTab.AddSelfCache` | ip/ipifc.c:892-949 | the searches and the relinking of both chains; what kinds the entries carry is `SelfRuns.AddKinds` |
| `Ipifc.SelfTab.RemSelfCache` | ip/ipifc.c:1004-1081 | the searches, the count and the unlinking |
| `Ipifc.SelfTab.IpForMe` | ip/ipifc.c:1138-1154 | the kind of an own address, else what the flag says: after any run what `SelfRuns.RunAnswer` gives |
| `Ipifc.SelfTab.Disassociate` | ip/ipifc.c:615-617 | the loop ends with every address of the interface gone and no other interface touched |

## Left out

- fpis2i, fpii2s: single precision denormals and infinities are not carried through by the code, and the narrowing truncates.
- The instruction decoder of the emulator, and chains of operations that stay in registers.
- Fpi.FpiMul: words are mathematical integers; that the column sums fit the machine's 32-bit words is shown by their bounds, not by a wrapping type.
- RouteHeap.BalanceTree: nothing about height; a node walked back in gets depth 1 and deletion leaves depths above it as they are, so only that rotations keep the meaning is claimed.
- RouteHeap.BalanceTree, RouteHeap.AddNode, RouteHeap.WalkAdd and the like return what the code stores through the pointer-to-pointer it is given; the caller stores it. Freed nodes are not modelled.
- RouteForest.Forest.V4Lookup: the choice of an interface for the route found, and the cached route of a conversation.
- RouteForest.Forest.IpWalkRoutes: the v6 routes printed after the v4 ones; how a route is printed is a parameter.
- RouteForest.Forest.RouteFlush: the search and the deletion are two calls here; the code deletes from inside the search and returns at once.
- v6 routes and v6 reassembly: the same algorithms over wider addresses.
- Distributing routes to interfaces, and the media drivers.
- Locks, sleeping, memory allocation, error recovery, logging and statistics: every function is one step.
- IlRuns.AlwaysRecovers: that a run to delivery exists from every state, not that the network or the timers take it.
- Il.Ilcb.IlClose: data still queued when a close is processed is dropped, as in the code, and nothing is claimed of it.
- IL round trip estimation and the length of timeouts, checksum bytes on the packets, `fasttimeout`, and what a reader sees after a hang-up.
- A second incarnation of an IL connection on the same ports.
- IpOutput.IpOput4: routing, the interface, time to live, type of service, the id and the header checksum; the error message sent when a packet may not be fragmented.
- IpFmt.ParseIpText: what the two bytes written past the buffer do (`IpOverrun.ReadPast` says for which texts); the address is what the first 16 bytes hold.
- IpFrag.LinkKeeps: offsets and lengths are mathematical integers; `IpWidth.LinkWraps` says when the code's 16 bits do not hold them.
- Checksum.PtclBsum: sums are mathematical integers, with `NoWrap` for packets of up to 64K octets.
- EspWrap.WrapBack: replay protection (the code has none), the user header, key set-up, and full receive queues.
- The Ethernet and v4 word formats of the address printer.
- SelfCache.RemCounts: the host routes added and removed with the entries, multicast filters, and the delayed freeing of links.
- ip/ipmux.c and ip/arp.c, whose obvious invariants the code does not keep.
- Device drivers, boot programs, clocks, traps, power and memory management: register input and output with no specification in the files.
