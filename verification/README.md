# KrakenGuard: verified models of the data-plane programs and analyses

This project models the hard core of the repository in Dafny and proves what it is for:
the consensus fast path, the known-bits abstract interpreter, the interference analysis,
the load balancer, the in-kernel cache, the loop finder, the assertion library and the
daemon's wire format. `dafny verify dfyconfig.toml` checks everything.

| file | what it holds |
|---|---|
| `Words.dfy` | machine words as bit sequences, and the arithmetic of their values |
| `Bytes.dfy`, `Options.dfy`, `PacketHead.dfy` | bytes, little-endian fields, stores into a buffer; missing values; header sizes and moving a packet's head |
| `QuorumTable.dfy` | the leader's 1024-slot quorum table against its event trace |
| `Electrode.dfy` | leader, followers and a lossy, duplicating, reordering network as one state machine |
| `ElectrodeFormat.dfy`, `ElectrodeWire.dfy`, `ElectrodeAgreement.dfy` | the message format; the same handlers on frames: classification, in-place reply, ring buffer; leader and follower reading the same messages |
| `Broadcast.dfy` | the clone-and-redirect broadcast chain |
| `KnownBits.dfy`, `AdderPrecision.dfy`, `HashLimits.dfy`, `HashExactness.dfy` | the abstract domain, how precise its adder is, the four hash programs and how tight their limits are |
| `ReadWriteSet.dfy`, `Interference.dfy` | the overlap analysis, and what "no overlap" means for two programs |
| `PacketParsing.dfy`, `FrameLayout.dfy`, `ConnectionRate.dfy`, `FlowRouting.dfy`, `RoutingCases.dfy`, `FlowProperties.dfy`, `FlowStatistics.dfy`, `InsertionRate.dfy` | the balancer: from frame to flow and frames laid out independently, limiter, packet path and its decision table, stickiness, what the counters count, insertion rate |
| `InternetChecksum.dfy`, `Encapsulation.dfy` | checksums and IP-in-IP tunnels, on the packet buffer |
| `BmcCache.dfy` | the three key scanners and the cache they share |
| `LoopBodies.dfy` | the worklist searches and the loop bodies built from them |
| `AssertSpec.dfy` | the packed snapshot store and its replay |
| `WireFraming.dfy` | length-prefixed requests and files over a chopped stream |

Code that updates state is a class or a method with loops, proved against a function of
its inputs or of the old state; the main theorems are then lemmas about those functions.
CLUSTER_SIZE, the word width W (32 in the program) and the limiter's maximum are
parameters; what the environment supplies (time, hashes, ring contents, receive chunk
sizes, the order in which a Python set yields its members) is universally quantified.

## What turned out not to hold as written

Each of these is stated with a concrete input or an exact condition.

- An ack counted for (view, op) need not come from a Prepare accepted in that view: a
  follower that installs a new view resends its old operation number under it
  (`Electrode.QuorumFromAnEarlierView`). An ack comes from a batch of its own view if and
  only if the sender's view had not been raised since the last batch it accepted
  (`Electrode.AckSpeaksForItsViewIff`). Every operation up to op is still on each acker
  without a gap, which is what `Electrode.QuorumIsDurable` proves.
- A Prepare frame of 108 to 117 bytes is half overwritten with a reply that is then not
  sent, and passed up like that (`ElectrodeWire.PassedUntouchedIff`). An ack frame with fewer
  than 14 bytes after its type string is read from its Ethernet header, because the head
  cannot be moved and nobody looks (`ElectrodeWire.HandleAckFrame`).
- The broadcast chain ends if and only if CLUSTER_SIZE is at most 127, since the replica
  counter is a signed `char` (`Broadcast.ChainEndsIff`), and reaches every replica once if
  and only if their indices lie below FAST_REPLICA_MAX (`Broadcast.OneCopyEachIffConfigured`).
- Two quorums of (CLUSTER_SIZE + 1) / 2 always meet if and only if CLUSTER_SIZE is odd
  (`Electrode.QuorumsIntersectIffOdd`).
- The comment on the abstract adder says that known bits stay known until the carry could
  be ambiguous; the code forgets everything from the first unknown operand bit on
  (`KnownBits.AddIsNotBest`; exact condition `AdderPrecision.AdderIsBestIff`).
- Concrete map keys with an odd number of hex digits are split into the wrong bytes
  (`ReadWriteSet.ConcreteBytesRightIff`, `Interference.OddDigitKeyIsMissed`), and a shared
  map with only concrete keys ends the whole scan (`Interference.MissedBehindAConcreteMap`,
  exact condition `Interference.RightInEveryOrderIff`).
- An IPv6 packet sent to a real without the IPv6 flag goes into an IPv4 tunnel whose total
  length is 40 bytes short and whose decapsulation gives it the IPv4 ethertype
  (`Encapsulation.OuterV4Header`, `Encapsulation.TunnelRoundTrip`).
- Decrementing the TTL keeps a header valid if and only if the TTL was at least 2; from 0 it
  wraps to 255 with a checksum that no longer verifies (`InternetChecksum.IpHeader.DecrementTtl`).
- The single-fold header checksum is right if and only if one fold leaves no carry
  (`InternetChecksum.SingleFoldVerifiesIff`).
- A truncated reply leaves a valid cache entry holding half of it
  (`BmcCache.UpdateKeepsWellFormedIff`), and a lookup that finds an invalid entry is counted
  as a hit (`BmcCache.Cache.WriteReply`).
- `F_HASH_DPORT_ONLY` flows are entered under a rewritten key (source 0, source port equal to
  destination port). A flow whose own key does not have that form is never found again and
  follows the ring packet by packet (`FlowProperties.DportOnlyNeverBinds`,
  `FlowProperties.DportOnlyFollowsRing`, exact condition `FlowProperties.DportOnlyBindsIff`); one
  whose key has it sticks, but only until a packet of another flow to the same port moves the
  entry they share (`FlowProperties.FlowsStick`, `FlowProperties.SharedEntryIsRebound`).
- An ICMP error reaches the flow it is about if and only if it quotes the whole transport
  header, 20 bytes for TCP; otherwise it is dropped, also when it quotes the 8 bytes that the
  ICMP standard (RFC 792) asks for (`PacketParsing.IcmpErrorIsReversed`).

## Model

| member | source | states |
|---|---|---|
| QuorumTable.Leader.Open | examples/cross_prog/fast_kern.c:529-542 | opening (view, op) clears the slot unless it already belongs to that key; nothing else changes |
| QuorumTable.Leader.HandlePrepareOK | examples/cross_prog/fast_kern.c:302-335 | new table and verdict of an ack: untouched pass on a mismatch, bit set otherwise, pass exactly when the count is QUORUM_SIZE - 1 |
| QuorumTable.TableMeaning | examples/cross_prog/fast_kern.c:315-325 | after any trace a slot belongs to the last key opened there, and its bits are exactly the replicas that acked that key since it was opened: the table refines an unbounded map |
| QuorumTable.VerdictMeaning | examples/cross_prog/fast_kern.c:321-334 | the verdict in terms of the trace alone: passed untouched, completing, or dropped |
| QuorumTable.QuorumWasPassedUp | examples/cross_prog/fast_kern.c:327-334 | whenever QUORUM_SIZE - 1 replicas have acked a held key, some ack of it was passed up as completing: pruning loses no quorum |
| QuorumTable.EvictsIff | examples/cross_prog/fast_kern.c:531-541 | opening b takes a's entry away if and only if they differ and their operation numbers agree modulo 1024 |
| QuorumTable.WindowLaw | examples/cross_prog/fast_kern.c:315-325 | as long as every other key opened since is 1 to 1023 operations away, a key keeps its entry and the bits are exactly the replicas that acked it |
| QuorumTable.WindowQuorum | examples/cross_prog/fast_kern.c:324-334 | and the very ack that brings them to QUORUM_SIZE - 1 is passed up as completing |
| Electrode.StepKeeps | examples/cross_prog/fast_kern.c:302-385 | every step (delivery, duplicate, reordering, view installation) keeps the protocol invariant; replicas, acks and quorums only grow |
| Electrode.RunKeeps | examples/cross_prog/fast_kern.c:302-385 | the invariant holds after every run |
| Electrode.PrepareStep | examples/cross_prog/fast_kern.c:360-384 | delivering a Prepare records a batch only if the follower is Normal, in that view, and the batch extends its log without a gap; it acks only those and repeats; otherwise the whole system is unchanged |
| Electrode.OnlyNormalFollowersAct | examples/cross_prog/fast_kern.c:361-366 | in every run a Prepare at a follower that is not Normal, or of another view, changes nothing |
| Electrode.QuorumIsDurable | examples/cross_prog/fast_kern.c:302-385 | once a quorum for (view, op) was reported, at least QUORUM_SIZE - 1 distinct followers acked exactly that key, and at every later time each has lastOp >= op and accepted every operation up to op without a gap |
| Electrode.EveryMajorityKnows | examples/cross_prog/fast_common.h:31 | every later majority contains the leader or a follower holding the whole prefix up to a reported op |
| Electrode.QuorumsIntersect | examples/cross_prog/fast_common.h:31 | two quorums of an odd cluster share a replica |
| Electrode.QuorumsIntersectIffOdd | examples/cross_prog/fast_common.h:31 | that is so exactly for odd cluster sizes |
| Electrode.AckWasAccepted | examples/cross_prog/fast_kern.c:368-381 | in every run an ack for an op above 0 comes from a replica that accepted a batch ending at op, in that view or an earlier one |
| Electrode.SteadyView | examples/cross_prog/fast_kern.c:363-381 | without view changes every accepted batch and every ack carries the starting view |
| Electrode.AcceptedInCurrentViewIff | examples/cross_prog/fast_kern.c:361-381 | in every run a follower holds a batch ending at its lastOp and accepted in its current view if and only if it has accepted a batch and its view was not raised since |
| Electrode.AckSpeaksForItsViewIff | examples/cross_prog/fast_kern.c:450-452 | an ack's sender has accepted a batch ending at that op in that view, then or at any later time, if and only if its view had not been raised since its last acceptance |
| Electrode.QuorumFromAnEarlierView | examples/cross_prog/fast_kern.c:450-452 | a run in which a quorum for view 2 is reported although every batch was accepted in view 1 |
| ElectrodeWire.Follower.PrepareFastReply | examples/cross_prog/fast_kern.c:415-484 | verdict and every byte of the frame in all cases: untouched, half written and passed up, or a whole reply transmitted |
| ElectrodeWire.Follower.WriteBuffer | examples/cross_prog/fast_kern.c:387-413 | the ring buffer gains exactly the protocol message when it fits and there is room, and exactly then a reply is tried |
| ElectrodeWire.Follower.HandlePrepare | examples/cross_prog/fast_kern.c:337-385 | from the three words of the frame: dropped untouched when not Normal or stale, passed untouched for a later view or a gap, state changed if and only if the log is extended, transmitted exactly when a long enough frame extends (and fits the ring) or repeats; an accepted message reaches user space |
| ElectrodeWire.PassedUntouchedIff | examples/cross_prog/fast_kern.c:425-459 | a Prepare frame passed up after a reply was tried is untouched if and only if its length is outside 108 to 117 or the leader has no configuration entry |
| ElectrodeWire.HandleAckFrame | examples/cross_prog/fast_kern.c:225-335 | table update and verdict from the words the handler actually reads; a completing frame is passed up from its start if and only if 14 bytes follow the type string or there is no headroom to move into |
| ElectrodeWire.ReplyIsUnderstood | examples/cross_prog/fast_kern.c:439-465 | the reply written over any Prepare frame is classified as PrepareOK by the leader and parses to (view mod 2^32, lastOp mod 2^32, own index) |
| ElectrodeWire.ReplyFields | examples/cross_prog/fast_kern.c:439-475 | each field of the reply that the leader's classifier and parser read |
| ElectrodeWire.ReplyAddressing | examples/cross_prog/fast_kern.c:467-482 | the reply goes back through the same interfaces, from the address and port it was sent to, to the leader's; both lengths are those of the shortened frame; UDP checksum zero |
| ElectrodeWire.ReplyMessage | examples/cross_prog/fast_kern.c:450-465 | kernel words and the user-space message read back as (view, lastOp, index) |
| ElectrodeWire.ReplyChecksumIff | examples/cross_prog/fast_kern.c:475 | the reply's header checksum verifies if and only if one fold of its sum leaves no carry |
| ElectrodeAgreement.MessagesAreDispatched | examples/cross_prog/fast_kern.c:195-239 | frames carrying each of the three message types, laid out byte by byte, reach their handlers with their words |
| ElectrodeAgreement.BroadcastOpensItsKey | examples/cross_prog/fast_kern.c:523-541 | a broadcast Prepare, laid out byte by byte, opens the entry of its view and operation, and its copies are the message with the bit cleared |
| ElectrodeAgreement.AckNamesTheOpenedEntry | examples/cross_prog/fast_kern.c:450-452 | a follower that accepts such a copy acks exactly the entry that the leader opened |
| ElectrodeAgreement.OthersGoToTheStack | examples/cross_prog/fast_kern.c:170-193 | only UDP frames to port 12345 with the magic number and a whole type string are looked at |
| Broadcast.FastBroadCast | examples/cross_prog/fast_kern.c:486-607 | everything one transmission puts on the wire, recursively through its clones, for every cluster on which the chain ends, and the table afterwards |
| Broadcast.Multicast | examples/cross_prog/fast_kern.c:552-606 | a clone finds its entry already open, so the rest of the chain leaves the table as it is |
| Broadcast.BroadcastPrepare | examples/cross_prog/fast_kern.c:523-606 | one broadcast sends exactly one restored copy to each replica but the leader that has a configuration entry, and resets the quorum entry at most once |
| Broadcast.ChainReachesEveryone | examples/cross_prog/fast_kern.c:552-573 | the chain visits each index other than the leader's exactly once |
| Broadcast.OneCopyEachIffConfigured | examples/cross_prog/fast_common.h:18-20 | one copy to each replica if and only if every index below the cluster size other than the leader's has a configuration entry |
| Broadcast.ChainEndsIff | examples/cross_prog/fast_kern.c:552-572 | the counter passes the cluster size if and only if that is at most 127 |
| Broadcast.RestoredIsOriginal | examples/cross_prog/fast_kern.c:595-596 | a copy is the original message with the broadcast bit cleared and nothing else changed |
| Broadcast.RestoredFields | examples/cross_prog/fast_kern.c:595-596 | a copy parses, is no broadcast and has the original's view and op |
| KnownBits.Adder | examples/ai_demo/hash_abstract_interp.py:76-95 | the carry loop computes the sum bits below the first unknown operand bit and nothing above |
| KnownBits.AddSoundOnWords | examples/ai_demo/hash_abstract_interp.py:76-95 | the ripple-carry sum of any two contained words is contained in the abstract sum |
| KnownBits.AddSound | examples/ai_demo/hash_abstract_interp.py:76-95 | so is (x + y) mod 2^W, for every width |
| KnownBits.AddIsNotBest | examples/ai_demo/hash_abstract_interp.py:77-78 | operands for which a strictly more precise sound answer exists |
| AdderPrecision.BestAddIsBest | examples/ai_demo/hash_abstract_interp.py:77-78 | the adder that forgets a bit only when an operand bit or the carry is ambiguous is at least as precise as every sound one |
| AdderPrecision.BestAddSound | examples/ai_demo/hash_abstract_interp.py:77-78 | and it is sound |
| AdderPrecision.AdderIsBestIff | examples/ai_demo/hash_abstract_interp.py:76-95 | the program's adder is most precise if and only if every bit with known operands and unambiguous carry lies below the first unknown operand bit |
| KnownBits.MulConst | examples/ai_demo/hash_abstract_interp.py:97-103 | the accumulator loop is shift-and-add over the set bits of the constant |
| KnownBits.MulConstSound | examples/ai_demo/hash_abstract_interp.py:97-103 | (x * c) mod 2^W is contained in the abstract product |
| KnownBits.AddConstExact | examples/ai_demo/hash_abstract_interp.py:76-95 | sums of constants stay constants |
| KnownBits.MulConstExact | examples/ai_demo/hash_abstract_interp.py:97-103 | products of constants stay constants |
| KnownBits.IntervalIsTight | examples/ai_demo/hash_abstract_interp.py:43-45 | both ends of the interval are attained and bound every contained word |
| KnownBits.PrecisionIsInclusion | examples/ai_demo/hash_abstract_interp.py:23-28 | knowing more bits is the same as standing for fewer words |
| KnownBits.BitwiseSound | examples/ai_demo/hash_abstract_interp.py:57-66 | AND, OR and XOR are sound |
| KnownBits.AndIsBest | examples/ai_demo/hash_abstract_interp.py:57-58 | AND is at least as precise as any sound answer |
| KnownBits.OrIsBest | examples/ai_demo/hash_abstract_interp.py:60-61 | so is OR |
| KnownBits.XorIsBest | examples/ai_demo/hash_abstract_interp.py:63-66 | so is XOR |
| KnownBits.ShlIsBest | examples/ai_demo/hash_abstract_interp.py:68-70 | so is SHL |
| KnownBits.ShrIsBest | examples/ai_demo/hash_abstract_interp.py:72-74 | so is SHR |
| KnownBits.ModPow2Sound | examples/ai_demo/hash_abstract_interp.py:105-106 | x mod 2^n is contained in the masked value |
| KnownBits.ModConstSound | examples/ai_demo/hash_abstract_interp.py:108-114 | v mod m is contained in the answer for m |
| KnownBits.ModConstIsTightest | examples/ai_demo/hash_abstract_interp.py:109-110 | no abstract value enclosing 0 to m - 1 knows more |
| HashLimits.AbstractFnv1a | examples/ai_demo/hash_abstract_interp.py:119-126 | the abstract rounds, for any number of them |
| HashLimits.Fnv1aLimit | examples/ai_demo/hash_abstract_interp.py:119-126 | for every input of any length the FNV-1a index lies in the abstract result and its interval, below 2^tableBits |
| HashLimits.MultShiftLimit | examples/ai_demo/hash_abstract_interp.py:128-131 | (x * C mod 2^W) / 2^(W - outBits) lies in the abstract result and its interval, below 2^outBits |
| HashLimits.AbstractXorshiftMask | examples/ai_demo/hash_abstract_interp.py:133-139 | the three abstract mixing steps and the mask |
| HashLimits.XorshiftLimit | examples/ai_demo/hash_abstract_interp.py:133-139 | the same for xorshift, below 2^maskBits |
| HashLimits.RingLimit | examples/ai_demo/hash_abstract_interp.py:141-143 | the ring index lies in the answer's interval, which starts at 0 and ends below the next power of two |
| HashExactness.LimitsAreExact | examples/ai_demo/hash_abstract_interp.py:119-139 | the reported intervals of the three mixing hashes are exactly 0 to 2^n - 1: only the final mask or shift creates the limit |
| HashExactness.Fnv1aArithmetic | examples/ai_demo/hash_abstract_interp.py:122-125 | the concrete FNV-1a in plain arithmetic |
| HashExactness.XorshiftVectors | examples/ai_demo/hash_abstract_interp.py:135-138 | known images under the concrete xorshift |
| ReadWriteSet.GetConcreteBytes | verification_tools/readWriteSet.py:67-79 | the two loops: pairs of hex digits from the right, then zero padding |
| ReadWriteSet.ConcreteBytesRightIff | verification_tools/readWriteSet.py:67-79 | these are the little-endian bytes of the key if and only if it is zero or has an even number of hex digits |
| ReadWriteSet.Same | verification_tools/readWriteSet.py:130-138 | the early-exit loop decides whether no concrete pair of bytes differs |
| ReadWriteSet.GetMaps | verification_tools/readWriteSet.py:42-53 | the dictionary lists, per map, the keys in order, and has no other map |
| ReadWriteSet.MatchKeys | verification_tools/readWriteSet.py:122-144 | exactly the possible matches, or the failed length assertion |
| ReadWriteSet.DetermineOverlap | verification_tools/readWriteSet.py:88-145 | the reported set, for any order of the shared maps |
| Interference.MatchIsCommonKey | verification_tools/readWriteSet.py:132-144 | two keys match byte by byte if and only if some concrete key is denoted by both |
| Interference.ScanIsExact | verification_tools/readWriteSet.py:108-144 | a scan over maps with symbolic keys reports something if and only if one of them has a common concrete key |
| Interference.OverlapIsExact | verification_tools/readWriteSet.py:88-145 | with uniformly keyed maps, in any order, something is reported if and only if both sets touch a common location |
| Interference.OverlapSees | verification_tools/readWriteSet.py:96-145 | without that condition: exactly what is seen in a given order, and never an overlap that is not there |
| Interference.ReportIsExact | verification_tools/readWriteSet.py:96-145 | each single report: the common elements, and exactly those keys of the first set, in maps looked at, that share a concrete key with the second |
| Interference.WrongSizeFails | verification_tools/readWriteSet.py:129 | keys of different lengths in a map that is looked at fail the assertion |
| Interference.RightInEveryOrderIff | verification_tools/readWriteSet.py:108-117 | the answer is right in every iteration order if and only if the maps are uniformly keyed, or an element is common, or there is nothing to find |
| Interference.MixedMapsCanBeMissed | verification_tools/readWriteSet.py:114-117 | a shared map with only concrete keys has an order in which no symbolic match is reported |
| Interference.MissedBehindAConcreteMap | verification_tools/readWriteSet.py:114-117 | two sets with a common location and an order reporting none |
| Interference.OddDigitKeyIsMissed | verification_tools/readWriteSet.py:67-75 | key 5 and a one-byte pattern 5 denote the same entry but do not match |
| Interference.IndependentProgramsCommute | verification_tools/readWriteSet.py:148-176 | programs that respect their sets and share no read-write or write-write location end in the same state in either order, from any state |
| Interference.ReadWriteSetAnalysis | verification_tools/readWriteSet.py:148-176 | the three comparisons, for all sets and orders: an overlap is found exactly when one of them reports something |
| Interference.AnalysisIsExact | verification_tools/readWriteSet.py:148-176 | for clean sets it finds an overlap if and only if the programs are not independent |
| Interference.AlarmIsReal | verification_tools/readWriteSet.py:154-173 | without uniformly keyed maps, an overlap it finds is still a real one |
| Interference.NoOverlapMeansCommute | verification_tools/readWriteSet.py:175-176 | "no overlap" for clean sets means that the two programs end in the same state in either order, from any state |
| ConnectionRate.NoSecondRestart | examples/cross_prog/balancer_kern.h:51-56 | after a quantum has started, none starts within a second of it |
| ConnectionRate.WindowBound | examples/cross_prog/balancer_kern.h:40-64 | over every ordered trace, any window of one second admits at most twice the maximum rate |
| ConnectionRate.WindowBoundIsTight | examples/cross_prog/balancer_kern.h:40-64 | a trace that attains the bound |
| InsertionRate.PacketRate | examples/cross_prog/balancer_kern.h:134-140 | processing a packet asks the limiter exactly once or not at all, and nothing else touches its counter |
| InsertionRate.NoEntryNoChange | examples/cross_prog/balancer_kern.h:134-140 | a packet that makes no entry leaves every flow's real as it was |
| InsertionRate.EntriesAreInsertions | examples/cross_prog/balancer_kern.h:134-140 | the table entries made by a stretch of packets are the limiter's admitted calls |
| InsertionRate.EntryRateBound | examples/cross_prog/balancer_kern.h:40-140 | over whole packet traces, at most 2 * MAX_CONN_RATE entries in any second |
| FlowRouting.Balancer.IsUnderFlood | examples/cross_prog/balancer_kern.h:40-64 | counter, quantum start and answer of one call, with 64-bit wrap-around; no other statistics slot changes |
| FlowRouting.Balancer.GetPacketDst | examples/cross_prog/balancer_kern.h:66-142 | destination, statistics and table of a ring selection |
| FlowRouting.Balancer.ConnectionTableLookup | examples/cross_prog/balancer_kern.h:144-166 | hit, miss, UDP timeout and refresh |
| FlowRouting.Balancer.Quic | examples/cross_prog/balancer_kern.h:511-547 | connection-id routing and its counters |
| FlowRouting.Balancer.Route | examples/cross_prog/balancer_kern.h:549-600 | table first, ring second, with the SYN and bypass cases |
| FlowRouting.Balancer.ProcessPacket | examples/cross_prog/balancer_kern.h:399-634 | verdict and whole new state for every packet |
| RoutingCases.OtherTraffic | examples/cross_prog/balancer_kern.h:454-473 | a packet is passed, with nothing changed, if and only if no virtual IP governs it |
| RoutingCases.TooBig | examples/cross_prog/balancer_kern.h:482-499 | over-long packets are dropped with nothing changed |
| RoutingCases.QuicCase | examples/cross_prog/balancer_kern.h:511-547 | a usable connection id decides alone; verdict and whole new state |
| RoutingCases.TableCase | examples/cross_prog/balancer_kern.h:144-166 | a recent entry with an existing real decides; verdict and whole new state |
| RoutingCases.RingCase | examples/cross_prog/balancer_kern.h:110-141 | in all other cases the ring slot does; verdict, entry made and whole new state |
| FlowProperties.BoundPacketFollows | examples/cross_prog/balancer_kern.h:144-166 | a non-SYN packet of a bound flow goes to its real whatever the ring says, and stays bound |
| FlowProperties.OtherPacketKeeps | examples/cross_prog/balancer_kern.h:549-600 | packets of other flows leave a binding alone, unless they are entered under the same key |
| FlowProperties.FlowsStick | examples/cross_prog/balancer_kern.h:549-600 | over every trace of packets of all flows, every kept-alive packet of a bound flow goes to the same real |
| FlowProperties.RingPacketBinds | examples/cross_prog/balancer_kern.h:134-140 | an unflooded packet for which the table has no usable answer (none, stale, dead real) or a SYN is entered for the real it is sent to |
| FlowProperties.DportOnlyBindsIff | examples/cross_prog/balancer_kern.h:113-140 | a port-hashed flow is entered under its own key if and only if that key has the rewritten form and an entry is made at all |
| FlowProperties.DportOnlyNeverBinds | examples/cross_prog/balancer_kern.h:113-140 | a key without that form is in the table after no trace of packets |
| FlowProperties.DportOnlyFollowsRing | examples/cross_prog/balancer_kern.h:113-131 | so at every point of every trace its packets go where the ring points at that moment |
| FlowProperties.SharedEntryIsRebound | examples/cross_prog/balancer_kern.h:117-139 | a packet of another flow to the same port moves the shared entry |
| FlowStatistics.PacketCounts | examples/cross_prog/balancer_kern.h:617-633 | a packet that is sent on is counted once for its virtual IP and once for its real, with its bytes; no other packet is counted |
| FlowStatistics.PacketKeepsBalance | examples/cross_prog/balancer_kern.h:617-633 | every packet keeps per-VIP and per-real totals equal mod 2^64 |
| FlowStatistics.ZeroedIsBalanced | examples/cross_prog/balancer_kern.h:617-633 | zeroed counters are balanced |
| FlowStatistics.StatisticsAgree | examples/cross_prog/balancer_kern.h:617-633 | after every trace the totals agree mod 2^64 |
| FlowStatistics.CountersMean | examples/cross_prog/balancer_kern.h:617-633 | after every trace from zero each real's counter is the number of packets and bytes sent to it mod 2^64, the VIP's counter that of all of them, and the others are zero |
| FlowStatistics.StatisticsCount | examples/cross_prog/balancer_kern.h:617-633 | both totals equal the packets sent as long as those are below 2^64, and likewise the bytes |
| PacketParsing.CalcOffset | examples/cross_prog/pckt_parsing.h:63-78 | where the transport header starts, quoted or not |
| PacketParsing.Description.ProcessL3Headers | examples/cross_prog/balancer_kern.h:168-237 | addresses and protocol, or why the frame is finished with: length, options, fragments, ICMP |
| PacketParsing.Description.ParseIcmp | examples/cross_prog/handle_icmp.h:255-284 | echo, other types, short or optioned quotes, and the quoted addresses |
| PacketParsing.Description.ParseIcmpv6 | examples/cross_prog/handle_icmp.h:225-253 | the same for IPv6 |
| PacketParsing.Description.ParsePorts | examples/cross_prog/pckt_parsing.h:80-134 | ports and SYN flag of either transport header, or that it is cut short |
| PacketParsing.HandleFrame | examples/cross_prog/balancer_kern.h:398-634 | verdict and whole new state of the balancer from the bytes of a frame |
| FrameLayout.V4FrameParses | examples/cross_prog/balancer_kern.h:204-233 | any IPv4 header and payload, laid out independently: options and fragments dropped, other protocols passed, otherwise the flow of exactly those fields and the length counted |
| FrameLayout.V6FrameParses | examples/cross_prog/balancer_kern.h:175-201 | the same for IPv6 |
| FrameLayout.V4ErrorParses | examples/cross_prog/handle_icmp.h:260-283 | any ICMP message quoting any header: echo answered, errors taken for the quoted packet reversed, others passed |
| FrameLayout.V6ErrorParses | examples/cross_prog/handle_icmp.h:227-252 | the same for ICMPv6 |
| PacketParsing.ShortFrames | examples/cross_prog/balancer_kern.h:177-207 | frames without a whole network header are dropped |
| PacketParsing.IcmpErrorIsReversed | examples/cross_prog/handle_icmp.h:271-283 | an error quoting the first n bytes of a packet parses to that packet's flow reversed, with its SYN flag, if and only if n covers the transport header; it is dropped otherwise |
| PacketParsing.IcmpErrorFollowsFlow | examples/cross_prog/pckt_parsing.h:94-132 | so an error quoting a reply of a flow has that flow's connection-table key |
| InternetChecksum.CsumFoldHelper | examples/cross_prog/csum_helpers.h:28-37 | for every 64-bit sum, the complement of the 16-bit ones' complement sum (zero only from zero) |
| InternetChecksum.FoldKeepsSum | examples/cross_prog/csum_helpers.h:33-34 | one fold keeps the ones' complement sum and ends on it below 2^16 |
| InternetChecksum.ThreeFoldsAreNotEnough | examples/cross_prog/csum_helpers.h:32 | the largest sum still exceeds 16 bits after three |
| InternetChecksum.IpHeader.Ipv4CsumInline | examples/cross_prog/csum_helpers.h:52-60 | the checksum over the ten header words |
| InternetChecksum.IpHeader.CreateV4Hdr | examples/cross_prog/encap_helpers.h:31-55 | every field of the new header, and that it verifies |
| InternetChecksum.V4HeaderVerifies | examples/cross_prog/encap_helpers.h:31-55 | every header so built verifies (section 3.1 of RFC 791, section 1 of RFC 1071) |
| InternetChecksum.IpHeader.DecrementTtl | examples/cross_prog/balancer_helpers.h:95-107 | only TTL and checksum change, dropped from 1, and a valid header stays valid if and only if the TTL was at least 2 |
| InternetChecksum.SingleFoldVerifiesIff | examples/cross_prog/fast_kern.c:110-123 | the one-fold checksum verifies if and only if the folded sum has no carry left |
| InternetChecksum.SingleFoldCanFail | examples/cross_prog/fast_kern.c:110-123 | a header on which it does not |
| Encapsulation.Xdp.EncapV4 | examples/cross_prog/pckt_encap.h:93-132 | headroom failure leaves the packet alone; otherwise the packet is the old one with new Ethernet and outer header, though written over it |
| Encapsulation.Xdp.EncapV6 | examples/cross_prog/pckt_encap.h:41-91 | the same with an IPv6 outer header |
| Encapsulation.Xdp.DecapV4 | examples/cross_prog/pckt_encap.h:157-172 | the packet without its outer header, its Ethernet header moved over it |
| Encapsulation.Xdp.DecapV6 | examples/cross_prog/pckt_encap.h:136-155 | the same for IPv6, with the ethertype of the inner packet |
| Encapsulation.Xdp.Push | examples/cross_prog/pckt_encap.h:57-72 | the overlapping writes amount to prepending |
| Encapsulation.Xdp.Pop | examples/cross_prog/pckt_encap.h:136-155 | the overlapping copies amount to removing |
| Encapsulation.DecapUndoesEncap | examples/cross_prog/pckt_encap.h:41-172 | length and every byte after the Ethernet header come back |
| Encapsulation.TunnelRoundTrip | examples/cross_prog/balancer_kern.h:608-616 | through the balancer's choice of tunnel and back: the same bytes, and the right ethertype if and only if an IPv6 packet went through IPv6 |
| Encapsulation.Xdp.ThereAndBack | examples/cross_prog/balancer_kern.h:608-616 | the same on the buffer itself, encapsulating and then decapsulating in place |
| Encapsulation.HeaderRoundTrip | examples/cross_prog/encap_helpers.h:31-55 | the header's bytes parse back to its fields |
| Encapsulation.OuterV4Header | examples/cross_prog/pckt_encap.h:121-129 | the outer header on the wire verifies, and its total length matches the packet (section 3 of RFC 2003) if and only if the packet inside is IPv4 |
| Encapsulation.OuterV6Header | examples/cross_prog/encap_helpers.h:57-77 | payload length and addresses of the outer IPv6 header match the packet |
| BmcCache.HashGetKey | examples/bmc-cache/bmc_kern.c:225-238 | FNV-1a (sign-extended bytes) of the key up to a space or CR, and its length |
| BmcCache.HashReplyKey | examples/bmc-cache/bmc_kern.c:577-580 | the same for the key at offset 6 of a reply |
| BmcCache.ScannersAgree | examples/bmc-cache/bmc_kern.c:225-238 | request and reply scanners give every key of 1 to 250 bytes the same hash |
| BmcCache.FnvVectors | examples/bmc-cache/bmc_kern.c:234-235 | published hash values, and one for a sign-extended byte |
| BmcCache.SlotsSeparate | examples/bmc-cache/bmc_kern.c:245 | hashes share a slot if and only if they agree modulo the number of entries |
| BmcCache.SetInvalidates | examples/bmc-cache/bmc_kern.c:479-519 | a "set", spaces, key and space reached in the idle state leaves that key's slot invalid after the whole packet |
| BmcCache.InvalidatedIff | examples/bmc-cache/bmc_kern.c:479-519 | a valid slot is invalidated if and only if the scanner comes, idle, by a SET of one of its keys |
| BmcCache.ScanConserves | examples/bmc-cache/bmc_kern.c:506-509 | the invalidation count grows by exactly the number of slots that became invalid; none becomes valid |
| BmcCache.Cache.InvalidateCache | examples/bmc-cache/bmc_kern.c:457-522 | the loop over the packet updates valid bits and counters as the scanner does, and nothing else |
| BmcCache.Cache.UpdateCache | examples/bmc-cache/bmc_kern.c:565-630 | exactly the key's slot changes, and to what; the update count grows exactly when a complete reply is stored |
| BmcCache.UpdateKeepsWellFormedIff | examples/bmc-cache/bmc_kern.c:605-627 | "valid implies a two-line reply" survives an update if and only if the entry was current or invalid, or the reply complete |
| BmcCache.StoredReplyIsServed | examples/bmc-cache/bmc_kern.c:605-619 | after a complete reply the entry holds its bytes and passes the key's hit test |
| BmcCache.CompleteIff | examples/bmc-cache/bmc_kern.c:609-616 | a reply is complete if and only if its second line ends within what an entry holds |
| BmcCache.ReplyIsKept | examples/bmc-cache/bmc_kern.c:588-619 | after a complete reply for a key the slot is valid for that key, and holds the reply or what it already held for the same key |
| BmcCache.Cache.UpdateThenServe | examples/bmc-cache/bmc_kern.c:588-619 | so a GET of the key that follows is a hit and is served those bytes |
| BmcCache.Cache.WriteReply | examples/bmc-cache/bmc_kern.c:346-407 | the two copy loops write the entry's bytes on a hit and nothing otherwise; one counter moves |
| BmcCache.StaysInvalid | examples/bmc-cache/bmc_kern.c:375-376 | an invalid slot stays invalid over every packet sequence without a complete reply for it, so nothing is served |
| LoopBodies.Search | examples/ai_demo/triage.py:198-216 | the worklist terminates and finds exactly what is reachable |
| LoopBodies.Predecessors | examples/ai_demo/triage.py:192-196 | the predecessor lists are the reversed graph |
| LoopBodies.ReversedReaches | examples/ai_demo/triage.py:208-216 | reaching backwards in it is being reached forwards |
| LoopBodies.LoopBody | examples/ai_demo/triage.py:218-252 | the body is exactly the strongly connected component of the header, the exits the edges leaving it |
| LoopBodies.CountExits | examples/ai_demo/triage.py:236-252 | the count is the number of edges from the body to outside, with multiplicity |
| LoopBodies.ComponentIsCycles | examples/ai_demo/triage.py:220-221 | that component is what lies on a cycle through the header |
| LoopBodies.BodiesPartition | examples/ai_demo/triage.py:218-225 | two loop bodies that share a block are equal |
| AssertSpec.Spec.SetExpectedReturn | verification_tools/assert_spec.h:41-45 | refused exactly when forbidden, out of bounds for what is no XDP action; no value is both expected and forbidden |
| AssertSpec.Spec.SetExpectedNotReturn | verification_tools/assert_spec.h:47-52 | refused exactly when too large or expected, out of bounds when negative |
| AssertSpec.Spec.AddConstant | verification_tools/assert_spec.h:54-63 | within the limits the snapshots gain exactly this region's bytes; earlier ones stay |
| AssertSpec.Spec.AddLeadsTo | verification_tools/assert_spec.h:65-71 | registers a value only for a true condition; the limit matters only then |
| AssertSpec.Spec.AddIfAction | verification_tools/assert_spec.h:73-81 | appends an expectation for one return value within the limit |
| AssertSpec.Spec.AddIf | verification_tools/assert_spec.h:83-90 | appends an unconditional expectation within the limit |
| AssertSpec.SnapshotUnchanged | verification_tools/assert_spec.h:99-103 | comparing memory with the packed buffer at the running offset is comparing it with the snapshot |
| AssertSpec.Spec.RunUnrestrictedAsserts | verification_tools/assert_spec.h:92-123 | passes if and only if the return value is allowed, every region still has its registered bytes, every true condition demanded this return value and every applicable expectation is met |
| AssertSpec.PackedAt | verification_tools/assert_spec.h:99-103 | snapshot i is the region at its prefix-sum offset |
| AssertSpec.PackedSnoc | verification_tools/assert_spec.h:58-62 | writing at the end of the packed buffer appends one snapshot and keeps the others |
| WireFraming.DictRoundTrip | daemon/protocol.py:41-89 | a request comes back from its dictionary with everything but the file contents |
| WireFraming.DictDefaults | daemon/protocol.py:81-89 | what a header that leaves everything out stands for |
| WireFraming.MessageRoundTrip | daemon/protocol.py:252-295 | every JSON text below 2^32 bytes survives serialisation |
| WireFraming.MessageLayout | daemon/protocol.py:269-274 | the length comes first, in four bytes, most significant first |
| WireFraming.MessageParses | daemon/protocol.py:336-364 | and leaves what follows it on the stream untouched |
| WireFraming.Socket.ReadExactly | daemon/protocol.py:346-362 | however the stream is chopped, exactly the next n bytes or the closed-connection error |
| WireFraming.Socket.ReadMessage | daemon/protocol.py:336-364 | the loops compute the stream parser, which knows nothing of chunks |
| WireFraming.Socket.ReadFiles | daemon/krakenguard.py:162-182 | the files in order, decoded, and the rest of the stream |
| WireFraming.Socket.ReceiveRequest | daemon/krakenguard.py:148-184 | the whole request, or the first error, as the stream parser gives it |
| WireFraming.FilesRoundTrip | daemon/krakenguard.py:162-182 | every list of files sent is rebuilt in order with the same contents |
| WireFraming.RequestRoundTrip | daemon/protocol.py:252-295 | request and files sent over any stream are received equal, consuming nothing beyond them |

## Left out

- JSON, base64 (section 4 of RFC 4648), UTF-8 and the textual format of symbolic keys: taken as functions with the stated inverse property, or as parsed data.
- Electrode view change and recovery in user space: only as a step that installs a status and a view not lower than before; operation numbers stay.
- Electrode tail calls: taken as such, so that the callee's verdict is final; a shift count of 32 or more is taken modulo 32.
- Broadcast.FastBroadCast: models the payload after the UDP header with the replica index standing for the destination fields, because the lookup key is read from a one-byte variable; the address and port tests before it are not modelled. Clusters of 128 or more are outside it because the chain does not end there (ChainEndsIff). What is sent for a type string whose second byte is 'p' but whose first is not 's' is stated for up to 115 replicas, since beyond that its chain passes through the bytes "sp" and starts over.
- Broadcast.BroadcastPrepare: for packets that start a broadcast (type string of at least two characters beginning "sp"); packets in the middle of a chain are FastBroadCast.
- ElectrodeWire.ReplyIsUnderstood: requires the frame to be long enough for the reply and the leader to listen on the protocol's port, since the code otherwise sends nothing the leader would look at.
- ConnectionRate.WindowBound: for traces shorter than 2^64 calls, so that the counter does not wrap.
- FlowProperties.FlowsStick: without eviction from the table, with fixed virtual services, one CPU and gaps of UDP flows within the timeout, for virtual IPs that use the table and do not route by QUIC connection id; other cases are not promised.
- FlowRouting.Balancer.ProcessPacket: starts from parsed headers; HandleFrame puts the parser before it. The fallback table, source routing, GUE and inline decapsulation, QUIC headers and the contents of ICMP echo and too-big replies are not modelled; hash values are parameters.
- Encapsulation.Xdp.EncapV4: the outer source address, derived from the flow, is a parameter; so it is in EncapV6.
- BmcCache.Cache.WriteReply: one key of the reply; the saved key bytes are a parameter, since the copy of them is commented out in the program; the END line, header fix-up and tail trimming are not modelled.
- Interference.ReadWriteSetAnalysis: takes Python sets as lists in an arbitrary order; its printing is left out.
- HashLimits.AbstractFnv1a: input bytes are arbitrary words, as the abstract program has them.
- AssertSpec.Spec.RunUnrestrictedAsserts: registered regions lie in the memory it is given; freeing the expected values is not modelled.
- WireFraming.RequestRoundTrip: requests only; response dictionaries would add only easy members.
- LoopBodies.LoopBody: header detection, branch and operation counts and the floating-point score of the triage are not modelled.
- The CRC example, firewall and NAT pair, Cilium examples, the refactored cache program, loaders, pipeline and lifting tools: no state or law of their own beyond the above.
