# CATBench in Dafny

CATBench measures cache partitioning. Around its benchmark clients it carries a modified copy of DPDK's
testpmd. This project models the parts of it whose correctness rests on an argument, and proves that argument:

- the full-cycle random number generator and the cache traversal built on it (`clients/rng.c`,
  `clients/square_evictions.c`): modules `Numbers`, `FullCycle`, `Rng`, `Evictions`;
- the random pointer chase of the lock server (`clients/lockserver-ng.c`): `PtrChase`;
- the start barrier of the benchmark runner (`bench_commands.c`): `StartBarrier`;
- one's-complement checksums, the ICMP echo responder and the flow generator (`test-pmd/icmpecho.c`,
  `test-pmd/flowgen.c`): `Checksum`, `IcmpEcho`, `IcmpBurst`, `FlowGen`;
- packet splitting and tunnel dissection of the checksum engine (`test-pmd/csumonly.c`): `PktSplit`, `Tunnel`;
- ports, forwarding, stream set-up and the multicast pool of testpmd (`test-pmd/testpmd.c`,
  `test-pmd/config.c`): `Ports`, `FwdConfig`, `McastPool`;
- the threshold ordering of the plots (`graph_helper.py`) and the CSV outer join (`csvmerge`): `OrderBucket`,
  `CsvText`, `CsvMerge`.

`Sequences` and `Types` hold what several modules share. `dafny verify dfyconfig.toml` checks the whole project.

## How the model reads the source

- C integers are unbounded `int`s with every wrap-around that can occur written out: the generator and the index
  product modulo 2^32, the checksum accumulators, the 16-bit segment lengths, the 8-bit burst index.
- `rand()`, `malloc`, `realloc`, mempool and driver results are inputs; the devices behind the ports are modelled by
  what driver calls do to them. A redraw loop is either a search in a supply
  of draws (`Rng.DrawIncrement`) or a choice among the eligible values, with a proof that there is one
  (`PtrChase.Setup`).
- Code that updates arrays and structures in place is modelled by methods and classes that do; each is proved
  against a function on values, and the properties are proved of that function. Concurrency is a step relation.
- Means are `real`; descriptions, which are only compared, are their rank.
- A line of a CSV file is text; the delimiter is one character, and `int` reads ASCII digits.
- The table of forwarding ports has an even number of entries, as DPDK configures it (32).

## Where the code does less than one might expect

Each of these is a lemma with the condition under which the expectation holds, and for most also a concrete input:

- The redraw loop of `rng_lcfc_init` cannot end for period 6, and can for every other period from 5 on
  (`Rng.SuitableIncrementIffNotSix`).
- A period that is not a power of two can lose its full cycle to 32-bit wrap-around (`Rng.FullCycleIffWrapHarmless`,
  `Rng.WrapLosesFullCycle`).
- With more than 100 % contracted lines the second generator is too short for its lines
  (`Evictions.SelectPeriods`, `Evictions.CoverageIff`).
- The incremental ICMP checksum is wrong exactly for requests whose identifier, sequence number and payload are all
  zero (`IcmpEcho.ReplyVerifiesIff`, `IcmpEcho.ZeroRequestFails`).
- The loop of the ICMP responder ends exactly for bursts of at most 255 packets, while bursts of 512 can be
  configured; from 256 packets on it disposes of one twice (`IcmpBurst.LoopEndsIff`, `IcmpBurst.SecondTurn`).
- `pkt_copy_split` looks at the tailroom of segment 0 too late to stop the copy (`PktSplit.FitsIffFirstFits`,
  `PktSplit.TooSmallFirstSegment`).
- `start_port` leaves a port in the handling state exactly when a receive queue has no memory pool, and no command
  brings it back (`Ports.HandlingIffMissingPool`, `Ports.HandlingIsForever`).
- Paired forwarding over an odd number of ports, three or more, makes two streams share a transmit queue
  (`FwdConfig.SimpleExclusive`). RSS forwarding over an odd number of ports, unless it loops, sends what the last port
  receives to the entry behind the forwarding ports, as soon as there are streams enough to reach that port
  (`FwdConfig.RssWithinIff`); whether queues are then shared depends on what that entry holds
  (`FwdConfig.RssExclusiveIff`, `FwdConfig.OddPortsShareQueue`).
- ICMP forwarding uses transmit queues that do not exist when there are fewer of them than receive queues
  (`FwdConfig.IcmpSetup`).
- The dissection of an IP-in-IP packet depends on the packets before it (`Tunnel.IndependentOfHistory`).
- `order_bucket` returns for every order of the series exactly when no two means are a threshold apart; with such a
  gap it depends on the order (`OrderBucket.ReturnsInEveryOrderIff`, `OrderBucket.OrderDecides`). On flat data the
  threshold is zero, and equal means are never ordered (`OrderBucket.ZeroThresholdIff`).
- `csvmerge` loses columns that are empty at an end of a row when the delimiter is white space
  (`CsvText.RestColsKeepsIff`, `CsvText.TabRowLosesColumn`, `CsvMerge.DelimitersConstantIff`).

## Model

| member | source | states |
|---|---|---|
| `FullCycle.GeoDivisibleIff` | clients/rng.c:24 | the number theory behind the parameters: a modulus whose primes, and four, divide a - 1 divides 1 + a + ... + a^(n-1) if and only if it divides n |
| `FullCycle.GeoOfPrime` | clients/rng.c:54-57 | for every prime p dividing a - 1, two included thanks to the factor four, the sum of p powers of a has exactly one factor p |
| `FullCycle.ReturnsIffPeriod` | clients/rng.c:71-73 | with a coprime increment the affine walk is back at a residue exactly after the multiples of the modulus |
| `FullCycle.StuckModuloPrime` | clients/rng.c:41-42 | with an increment sharing a prime with the modulus the walk never changes its residue modulo that prime |
| `Rng.IsCoprime` | clients/rng.c:15-22 | the loop accepts exactly the numbers no listed factor divides |
| `Rng.DrawIncrement` | clients/rng.c:25-32 | the redraw loops keep the first draw that is neither 0, 1 nor period - 1 and passes the factor test |
| `Rng.SuitableIncrementIffNotSix` | clients/rng.c:26-31 | for a list of exactly the period's primes, an increment the redraw loops accept exists if and only if the period is not six |
| `Rng.InitIncr` | clients/rng.c:36-64 | NULL exactly for a rejected increment or failed malloc; otherwise seed, increment, period and the multiplier 4 * product + 1 in 32 bits |
| `Rng.Lcg.Next` | clients/rng.c:71-73 | one draw in wrapping arithmetic, stored and returned |
| `Rng.StepExact` | clients/rng.c:71-73 | on a reduced state a 32-bit draw equals exact arithmetic modulo the period, for power-of-two periods or when nothing wraps |
| `Rng.OutputsListAll` | clients/rng.c:35-73 | full cycle: from any seed, any `period` consecutive outputs are 0 to period - 1, each once |
| `Rng.RecursIffPeriod` | clients/rng.c:71-73 | a reduced state recurs exactly after the multiples of the period |
| `Rng.ReturnsAfterPeriod` | clients/rng.c:71-73 | a reduced state is back after `period` draws |
| `Rng.FullCycleIffAccepted` | clients/rng.c:35-42 | with an exact factor list the outputs have the full cycle if and only if the increment passes the factor test |
| `Rng.FullCycleIffWrapHarmless` | clients/rng.c:54-72 | while no draw wraps more than once, every seed has its full cycle if and only if the period divides 2^32 or nothing wraps |
| `Rng.WrapLosesFullCycle` | clients/rng.c:54-72 | period 33495 with its factors 3, 5, 7, 11, 29 and increment 2: accepted, wraps, and no seed gives a full cycle |
| `Rng.WrapMayKeepFullCycle` | clients/rng.c:54-72 | beyond one wrap the condition is not necessary: an accepted list for period 9 whose draws wrap four times and still run through the full cycle |
| `Rng.CheckFullCycle` | clients/rng_test.c:42-56 | the test driver passes exactly when the next `period` outputs are a full cycle |
| `Evictions.DrawIndex` | clients/square_evictions.c:248-249 | the 32-bit index product is exact and inside the buffer exactly when the draw is below the number of lines |
| `Evictions.Spin` | clients/square_evictions.c:245-251 | the spin loop ends within period - lines + 1 draws, at the next output of the generator below the number of lines |
| `Evictions.SwapWith` | clients/square_evictions.c:261-263 | the three XORs exchange val and the array byte and touch no other byte |
| `Evictions.XorSwaps` | clients/square_evictions.c:261-263 | the three-XOR swap, for numbers of any width |
| `Evictions.Pass` | clients/square_evictions.c:243-292 | whatever the generator state, a complete pass visits every line once and swaps val along the visits; -q fails exactly when a draw was out of range, never when period = lines; a pass stops at the access limit; the seen_initial assertion holds |
| `Evictions.RunPasses` | clients/square_evictions.c:242-293 | in every run of passes each pass but a cut-short last one visits all lines once, the visits of the whole run are the draws of the generator that are lines, in the order drawn, and the line-start bytes with val stay the same multiset |
| `Evictions.VisitedLines` | clients/square_evictions.c:244-253 | any run of draws up to a cycle visits distinct lines, and all of them once there are as many as lines |
| `Evictions.CoverageIff` | clients/square_evictions.c:244-251 | some number of draws visits every line once if and only if the lines do not exceed the period |
| `Evictions.Rotation` | clients/square_evictions.c:242-263 | visits of distinct lines shift the line-start bytes one place along the visiting order, val entering at the front and leaving at the back |
| `Evictions.Untouched` | clients/square_evictions.c:261-263 | bytes that are no visited line start keep their value |
| `Evictions.Conservation` | clients/square_evictions.c:242-263 | line-start bytes together with val are conserved as a multiset by any visits |
| `Evictions.SelectPeriods` | clients/square_evictions.c:569-597 | both periods are powers of two, long enough (the contracted one exactly when its lines do not exceed the cache sets) and less than twice what is needed |
| `Evictions.PowerOfTwoPeriodIsFull` | clients/square_evictions.c:592-596 | a power-of-two period with factor list {2} meets the conditions of the full-cycle theorem for every accepted increment |
| `Evictions.SelectedIndexFits` | clients/square_evictions.c:569-597 | with the selected periods and a buffer below 2^31 bytes the index product cannot wrap |
| `Evictions.TraversePhase` | clients/square_evictions.c:569-621 | end to end: with the periods main picks, a generator seeded anyhow and a buffer below 2^31 bytes, every pass visits each line once, the visits are those of x -> 9 x + increment modulo the period from the seed, the line-start bytes are rotated and conserved with val; without -q all passes complete |
| `PtrChase.EligibleTarget` | clients/lockserver-ng.c:74-77 | while the chain is short there is a slot the redraw loop can find, and any slot it finds is new to the chain |
| `PtrChase.Setup` | clients/lockserver-ng.c:61-98 | for every length and every choice the array ends as a single cycle through all slots, without self-links when there is more than one |
| `PtrChase.NoSelfLoop` | clients/lockserver-ng.c:84-89 | in a single cycle of more than one slot no slot points to itself |
| `PtrChase.Chase` | clients/lockserver-ng.c:143-144 | the chase from slot 0 is back after exactly len steps and has met each slot once |
| `StartBarrier.NextKeepsInv` | bench_commands.c:83-142 | every step of any process keeps the barrier invariant |
| `StartBarrier.NoneRunsBeforeAllAreUp` | bench_commands.c:83-142 | in every interleaving, once one child executes its program every child has reported up |
| `StartBarrier.SignalsAreSafe` | bench_commands.c:20-33 | no signal is lost or kills its receiver; each child is released at most once, exactly once by the end |
| `StartBarrier.NoDeadlock` | bench_commands.c:120-142 | every state of the invariant that is not final has a step |
| `StartBarrier.EveryRunStartsAll` | bench_commands.c:83-142 | every interleaving takes exactly 11 n steps and ends with all programs running |
| `Checksum.OnesSumIsNorm` | test-pmd/flowgen.c:106-117 | carry by carry or deferred, the one's-complement sum of section 1 of RFC 1071 represents the unbounded sum |
| `Checksum.VerifiesIff` | test-pmd/flowgen.c:103-120 | a block verifies exactly when its sum is a non-zero multiple of 0xFFFF |
| `Checksum.ByteOrderIndependence` | test-pmd/flowgen.c:104-119 | section 2(B) of RFC 1071: the sum of byte-swapped words is the byte-swapped sum, so host-order loads are sound |
| `Checksum.IpSum` | test-pmd/flowgen.c:103-120 | for every length the result is the complement of the reference sum; the accumulator never overflows and the fold loop ends |
| `Checksum.HeaderChecksum` | test-pmd/icmpecho.c:275-294 | two folds give the complement of the sum over the nine other words, with all ones in place of zero |
| `Checksum.ComplementVerifies` | test-pmd/icmpecho.c:289-293 | a block with the complement, or all ones for a sum of all ones, in its checksum field verifies |
| `Checksum.ChecksumsAgree` | test-pmd/flowgen.c:197-198 | on a header with zeroed checksum both routines agree modulo 0xFFFF and both make it verify |
| `IcmpEcho.UpdateKeepsSum` | test-pmd/icmpecho.c:505-510 | the update of equation 3 in section 3 of RFC 1624 turns a valid sum into a valid one exactly when the rest of the message is not zero |
| `IcmpEcho.ReplyVerifiesIff` | test-pmd/icmpecho.c:504-510 | the reply to a valid request of any length has a valid checksum if and only if some byte behind the checksum is not zero |
| `IcmpEcho.ZeroRequestFails` | test-pmd/icmpecho.c:504-510 | the eight-byte request of zeroes is valid and its reply is not |
| `IcmpEcho.IpReplyVerifies` | test-pmd/icmpecho.c:488-503 | the 20-byte header stays valid under the address swap and is made valid on the multicast path |
| `IcmpEcho.IpReplyAddresses` | test-pmd/icmpecho.c:488-503 | the reply goes to the requester; the chosen source differs from the requester's in the last byte only |
| `IcmpEcho.HandlePacket` | test-pmd/icmpecho.c:348-511 | in place, an ICMP echo or ARP request becomes its reply and any other packet is left alone |
| `IcmpEcho.AnsweredIff` | test-pmd/icmpecho.c:350-460 | which packets are answered, in bytes: with or without VLAN tag, type 0x0800 with protocol 1, ICMP type 8 and code 0; or type 0x0806 with an ARP request for IPv4 on Ethernet; all others are dropped |
| `IcmpEcho.ArpAnswerCorrect` | test-pmd/icmpecho.c:375-436 | the answer to an ARP request, in bytes: operation 2, to the requester, with the hardware address of the asked address; it is not answered in turn |
| `IcmpEcho.EchoReplyParts` | test-pmd/icmpecho.c:485-510 | the reply has the MAC addresses exchanged, the IPv4 header and the ICMP message rewritten, and nothing else changed |
| `IcmpEcho.EchoReplyEther` | test-pmd/icmpecho.c:485-487 | the Ethernet addresses are exchanged and the rest of that header kept |
| `IcmpEcho.EchoReplyIp` | test-pmd/icmpecho.c:488-503 | the IPv4 header byte by byte: addresses, kept fields, kept checksum on the unicast path, the last two address bits on the multicast path |
| `IcmpEcho.EchoReplyMessage` | test-pmd/icmpecho.c:504-510 | type 0; the code and everything behind the checksum are kept |
| `IcmpEcho.EchoReplyCorrect` | test-pmd/icmpecho.c:442-511 | a valid request gets a reply with valid IPv4 header, valid ICMP checksum unless all is zero, that is not answered in turn |
| `IcmpBurst.HandleBurst` | test-pmd/icmpecho.c:347-512 | every packet of the burst is handled in place; the answered ones end at the front of the array in order, the others are freed in order |
| `IcmpBurst.SelectInOrder` | test-pmd/icmpecho.c:434-512 | the packets kept are exactly the answered ones, in the order they came |
| `IcmpBurst.ReplyToBurst` | test-pmd/icmpecho.c:330-528 | every packet of the burst is sent or freed exactly once; the sent ones are the first answered ones, and each holds the answer to what was received |
| `IcmpBurst.LoopEndsIff` | test-pmd/icmpecho.c:323-348 | the guard of the loop with its 8-bit index fails after some round exactly when the burst has at most 255 packets, and then first after one round per packet |
| `IcmpBurst.SecondTurn` | test-pmd/icmpecho.c:323-512 | from 256 packets on the loop goes on, and its round 256 sends or frees again the packet in slot 0 |
| `FlowGen.FillHeader` | test-pmd/flowgen.c:183-198 | the header of a flow is filled in and verifies |
| `FlowGen.HeaderBytes` | test-pmd/flowgen.c:183-198 | the header of a flow in bytes, from 10.254.0.0 to 10.253.0.0 plus the number of the flow |
| `FlowGen.PacketBytes` | test-pmd/flowgen.c:174-215 | the whole packet in bytes: MAC addresses, type, UDP ports 1000 and 1001, lengths, and the kept rest of the buffer |
| `FlowGen.FillPacket` | test-pmd/flowgen.c:174-215 | the Ethernet, IPv4 and UDP headers and the mbuf fields of a packet of a flow; what was behind them in the buffer stays |
| `FlowGen.GeneratedIsPlainUdp` | test-pmd/flowgen.c:174-215 | the dissector of the checksum engine finds a plain UDP packet with the header lengths recorded in the mbuf, and both length fields agree with the packet |
| `FlowGen.Generator.Burst` | test-pmd/flowgen.c:129-241 | the packets sent and then the ones freed carry the next flows in turn, and the counter moves by exactly those sent |
| `FlowGen.Generator.Run` | test-pmd/flowgen.c:129-241 | over repeated bursts, with any losses, the i-th packet sent goes to 10.253.0.0 plus (start + i) mod 1024, and the counter ends behind the last one |
| `FlowGen.SameDestinationIff` | test-pmd/flowgen.c:193-217 | two packets of a run have the same destination exactly when they are a multiple of 1024 packets apart |
| `FlowGen.BackOut` | test-pmd/flowgen.c:226-230 | backing the counter out by the unsent packets gives the flow after the last sent one |
| `FlowGen.RunIsSeamless` | test-pmd/flowgen.c:217-230 | the flows of consecutive bursts, each starting where the counter was left, are one run of consecutive flows |
| `PktSplit.ChopConcat` | test-pmd/csumonly.c:484-510 | copied bytes and leftover together are the packet, in order |
| `PktSplit.CopyStep` | test-pmd/csumonly.c:484-510 | one round of the copy loop takes the next piece the specification asks for and leaves the cursor at the rest |
| `PktSplit.CopySplit` | test-pmd/csumonly.c:465-525 | the loop writes exactly the pieces and next pointers of the specification and returns ENOBUFS, EINVAL or the segment count accordingly; on success the first mbuf gets the length, VLAN and offload fields of the packet |
| `PktSplit.ReturnCodeIff` | test-pmd/csumonly.c:512-524 | 105 exactly when part of the source is left over, 22 exactly when all is copied but the packet length is wrong, otherwise the number of segments |
| `PktSplit.SuccessfulCopy` | test-pmd/csumonly.c:512-524 | after success the destination chain holds the bytes of the source chain, and has nb_segs segments exactly when at most one planned segment was not needed |
| `PktSplit.Plan` | test-pmd/csumonly.c:549-564 | the plan uses configured lengths until the packet is covered and extends the last one, in 16 bits |
| `PktSplit.SingleSegmentPlanSucceeds` | test-pmd/csumonly.c:549-588 | for every non-empty single-segment packet the plan succeeds and each segment but the last has its configured length |
| `PktSplit.PlanFullyUsed` | test-pmd/csumonly.c:549-588 | for any source chain, a copy that succeeds on a plan uses every planned segment |
| `PktSplit.Allocate` | test-pmd/csumonly.c:565-584 | the copy goes ahead exactly when every mbuf was obtained and all but that of segment 0 were large enough |
| `PktSplit.CopyPacket` | test-pmd/csumonly.c:531-606 | every mbuf taken ends in the returned chain or freed, exactly once; NULL exactly when none is kept; a returned chain holds the packet in as many segments as planned, and its head says so |
| `PktSplit.FitsIffFirstFits` | test-pmd/csumonly.c:575-588 | a copy that goes ahead stays within its mbufs exactly when the first mbuf has room for its planned length or for the whole first source segment |
| `PktSplit.TooSmallFirstSegment` | test-pmd/csumonly.c:575-588 | a concrete copy into an mbuf without tailroom |
| `Tunnel.PointerIsWhereParserRead` | test-pmd/csumonly.c:696-722 | for every packet the L3 pointer is the offset of the header whose lengths were recorded, and the outer fields are those of the outer header |
| `Tunnel.StackRecovered` | test-pmd/csumonly.c:203-319 | parsing a VXLAN, GRE (with or without key, IP or Ethernet inside) or IP-in-IP stack recovers every header length and the inner L3 offset |
| `Tunnel.PlainRecovered` | test-pmd/csumonly.c:165-319 | whatever follows its IP header, a packet is taken for a tunnel exactly when that announces one (VXLAN port or receive flag, supported GRE flags and protocol, inner IP version); otherwise its header lengths are recovered |
| `Tunnel.PlainL4Recovered` | test-pmd/csumonly.c:131-163 | of a plain packet the recorded L4 length is that of the TCP header with its options, and zero for other protocols |
| `Tunnel.StackL4Recovered` | test-pmd/csumonly.c:131-163 | the same for the inner transport header of a tunnel |
| `Tunnel.MetaAgrees` | test-pmd/csumonly.c:749-775 | both metadata layouts give the driver the offset of the L3 pointer, and with outer checksum offload the two outer lengths |
| `Tunnel.IndependentOfHistory` | test-pmd/csumonly.c:293-319 | the dissection is independent of earlier packets exactly when the packet is not IP in IP or the stale outer protocol agrees |
| `Tunnel.OffloadInfo.FillIpv4` | test-pmd/csumonly.c:131-146 | the IPv4 fields of the structure |
| `Tunnel.OffloadInfo.FillIpv6` | test-pmd/csumonly.c:148-163 | the IPv6 fields of the structure |
| `Tunnel.OffloadInfo.FillEthernet` | test-pmd/csumonly.c:165-201 | the Ethernet fields, with one optional VLAN tag, and those of the IP header behind |
| `Tunnel.OffloadInfo.FillVxlan` | test-pmd/csumonly.c:203-230 | a VXLAN packet is recognised by port or receive flag and its inner headers recorded |
| `Tunnel.OffloadInfo.FillGre` | test-pmd/csumonly.c:232-290 | a supported GRE header is recognised and its inner headers recorded; others leave the structure alone |
| `Tunnel.OffloadInfo.FillEncapIp` | test-pmd/csumonly.c:293-319 | an encapsulated IP header is recorded; the outer L4 protocol is left as it was |
| `Tunnel.OffloadInfo.Dissect` | test-pmd/csumonly.c:696-722 | the structure and the two L3 pointers after step 1 |
| `Ports.RunSafe` | test-pmd/testpmd.c:948-1563 | over every run of commands: forwarding on implies every enabled non-slave port is started, and no port is handling unless a missing pool was met |
| `Ports.DevicesAgree` | test-pmd/testpmd.c:948-1563 | over every run: a port is marked started exactly when its device is running, a port not marked for set-up has a configured device with all queues; while forwarding is on the devices of all enabled non-slave ports run |
| `Ports.StopNeverRefused` | test-pmd/testpmd.c:1032-1062 | while forwarding is on, the stop command turns it off and no other command does |
| `Ports.PortsFrozenWhileForwarding` | test-pmd/testpmd.c:1253-1256 | while forwarding is on no port changes status, and only a closed slave can be detached |
| `Ports.EnabledChanges` | test-pmd/testpmd.c:1488-1563 | a port goes exactly when it is closed and detached on request; one appears exactly when attached with forwarding off, stopped and marked for set-up |
| `Ports.ListStaysOk` | test-pmd/testpmd.c:1507-1555 | the forwarding list always starts with the enabled ports in order, as many as nb_fwd_ports counts |
| `Ports.ListRebuilt` | test-pmd/testpmd.c:1507-1555 | behind them a rebuilt list holds zeros |
| `Ports.HandlingIffMissingPool` | test-pmd/testpmd.c:1333-1338 | a command leaves a port handling if and only if it reaches a receive queue without a pool |
| `Ports.HandlingIsForever` | test-pmd/testpmd.c:1274-1278 | an enabled handling port stays so under every command and, unless a slave, keeps forwarding off |
| `Ports.FailureIsRetried` | test-pmd/testpmd.c:1280-1366 | a failed configure or queue step leaves the port stopped with a retry flag, and a later start that succeeds brings it up |
| `Ports.StatusTransitions` | test-pmd/testpmd.c:1244-1486 | a port is started exactly when start_port gets to it while stopped, the driver sets it up as far as needed and its device starts; stopped exactly when started and asked to stop; closed exactly when stopped and asked to close |
| `Ports.SwitchedOnIff` | test-pmd/testpmd.c:948-982 | forwarding is switched on exactly by its command, when it is off, all enabled non-slave ports are started and DCB mode does not object |
| `Ports.SwitchedOffIff` | test-pmd/testpmd.c:1055-1070 | forwarding is switched off exactly by its command, when it is on and all those ports are started |
| `Ports.DcbModeIff` | test-pmd/testpmd.c:1267-1418 | DCB mode is entered by starting ports once configured and left, with its configuration, by stopping ports |
| `Ports.BringUp` | test-pmd/testpmd.c:948-1400 | with drivers that succeed and no enabled port closed or stuck, starting all ports and then forwarding turns forwarding on, outside DCB mode |
| `Ports.ShutDown` | test-pmd/testpmd.c:1402-1486 | with forwarding off and no port stuck, stopping and then closing all ports closes every enabled port |
| `Ports.EnabledSorted` | test-pmd/testpmd.c:1549-1555 | the rebuilt forwarding list names enabled ports only, in increasing order |
| `Ports.EnabledListed` | test-pmd/testpmd.c:1549-1555 | the rebuilt forwarding list names every enabled port |
| `Ports.Testpmd.AllPortsStarted` | test-pmd/testpmd.c:1186-1202 | true exactly when every enabled non-slave port is started |
| `Ports.Testpmd.StartOnePort` | test-pmd/testpmd.c:1274-1391 | what starting does to one port and its device, and whether the command goes on to the next; the device is started only when configured and with its queues set up |
| `Ports.Testpmd.StartPorts` | test-pmd/testpmd.c:1244-1400 | the state and the return code after start_port |
| `Ports.Testpmd.StopPorts` | test-pmd/testpmd.c:1402-1443 | the state after stop_port |
| `Ports.Testpmd.ClosePorts` | test-pmd/testpmd.c:1445-1486 | the state after close_port |
| `Ports.Testpmd.Attach` | test-pmd/testpmd.c:1488-1528 | the state after attach_port |
| `Ports.Testpmd.Detach` | test-pmd/testpmd.c:1530-1563 | the state after detach_port |
| `Ports.Testpmd.StartForwardingNow` | test-pmd/testpmd.c:948-982 | forwarding is switched on exactly when all ports are started, it is off and DCB mode does not object |
| `Ports.Testpmd.StopForwardingNow` | test-pmd/testpmd.c:1055-1169 | forwarding is switched off exactly when it is on and all ports are started |
| `FwdConfig.SetupLcores` | test-pmd/config.c:1049-1087 | the blocks are contiguous, differ in size by at most one, and hold exactly the streams if and only if there are at least as many streams as cores |
| `FwdConfig.EachStreamOnce` | test-pmd/config.c:1070-1086 | every stream below the end of the blocks belongs to exactly one core |
| `FwdConfig.SimpleSetup` | test-pmd/config.c:1089-1143 | the cores are clamped to the ports and share the streams, and how every stream is wired, the overwritten stream 0 of an odd pairing included |
| `FwdConfig.SimpleWiring` | test-pmd/config.c:1124-1141 | every port sends to itself, to the next port round, or to the other port of its pair |
| `FwdConfig.SimpleExclusive` | test-pmd/config.c:1089-1143 | no two streams share a queue if and only if the topology is not paired, or the ports are even in number, or there is one |
| `FwdConfig.PairedInvolution` | test-pmd/config.c:1135-1141 | paired forwarding is its own inverse |
| `FwdConfig.ChainedCycle` | test-pmd/config.c:1124-1128 | chained forwarding is one cycle through all ports |
| `FwdConfig.RssSetup` | test-pmd/config.c:1160-1223 | the number of streams, their sharing out, one to a core, and their wiring for any number of ports; no two share a queue if and only if the set-up stays clear of the last port of an odd number or the entry behind the forwarding ports is free; stream indexes stay below ports times receive queues |
| `FwdConfig.RssWiring` | test-pmd/config.c:1188-1222 | stream k polls queue k mod q of port k / q and sends on the same queue of that port or of the other port of its pair |
| `FwdConfig.RssExclusiveIff` | test-pmd/config.c:1160-1223 | RSS streams share no receive or transmit queue exactly under that condition |
| `FwdConfig.OddPortsShareQueue` | test-pmd/config.c:1193-1208 | three ports on three cores with zero behind them in the table: two streams send on queue 0 of port 0 |
| `FwdConfig.RssWithinIff` | test-pmd/config.c:1193-1223 | the whole set-up names forwarding ports only exactly when it loops, the ports are even in number, or there are too few streams to reach the last port |
| `FwdConfig.IcmpAssign` | test-pmd/config.c:1341-1363 | the nested loops over cores and their streams amount to one enumeration of the queues |
| `FwdConfig.IcmpWiring` | test-pmd/config.c:1341-1363 | stream k answers on the queue it polls, queue k mod nb_rxq of port k / nb_rxq |
| `FwdConfig.IcmpSetup` | test-pmd/config.c:1311-1364 | the cores are clamped so that their blocks hold exactly the streams, every stream is wired, none share a queue, and every transmit queue used exists if and only if there are as many as receive queues |
| `FwdConfig.RowColAreDivMod` | test-pmd/config.c:1357-1361 | the running port and queue counters of stream k are k / nb_rxq and k mod nb_rxq |
| `McastPool.PoolRefinesSet` | test-pmd/config.c:2298-2313 | over every sequence of adds and removes, with any memory failures, the pool lists the set without repetition |
| `McastPool.RemovalKeepsOrder` | test-pmd/config.c:2352-2368 | removing an address keeps the order of the others |
| `McastPool.AdditionComesLast` | test-pmd/config.c:2398-2410 | a new address comes last |
| `McastPool.Pool.Extend` | test-pmd/config.c:2316-2350 | one more entry behind the old ones, failing exactly when a chunk is full and realloc fails |
| `McastPool.Pool.RemoveAt` | test-pmd/config.c:2352-2368 | the entry is taken out, the rest keep their order, and an emptied pool is NULL |
| `McastPool.Pool.AddAddress` | test-pmd/config.c:2385-2411 | an address not yet there is appended, memory permitting; capacity covers the count rounded up to 32 |
| `McastPool.Pool.RemoveAddress` | test-pmd/config.c:2413-2438 | a recorded address is removed, any other call changes nothing |
| `OrderBucket.AllClose` | graph_helper.py:12-17 | true exactly when no two means are a threshold or more apart |
| `OrderBucket.FillBuckets` | graph_helper.py:22-41 | the loop fills the three buckets around the baseline, or finds that all means are close |
| `OrderBucket.OrderBuckets` | graph_helper.py:19-42 | the recursion of order_bucket to a given depth |
| `OrderBucket.OrderCorrect` | graph_helper.py:19-49 | whenever it returns, the flattened result is a permutation in which an earlier mean is less than a threshold above a later one |
| `OrderBucket.OrderDescends` | graph_helper.py:31-34 | in every bucket of the result the series that count as equal are in descending order of description |
| `OrderBucket.CloseDescends` | graph_helper.py:31-34 | close series come out by descending description, equal descriptions in the reverse of their listing |
| `OrderBucket.OrderTerminates` | graph_helper.py:19-42 | with no two means exactly a threshold apart it returns, threshold zero included |
| `OrderBucket.ReturnsInEveryOrderIff` | graph_helper.py:19-42 | it returns for every order in which the dictionary may list the series if and only if no two means are exactly a threshold apart |
| `OrderBucket.OrderDecides` | graph_helper.py:19-42 | three series with an exact gap: listed in one order they are ordered, in another never |
| `OrderBucket.ZeroThresholdIff` | graph_helper.py:19-60 | with threshold zero, as on flat data, it returns if and only if no two means are equal, in whatever order |
| `OrderBucket.ReturnsIffNoExactGap` | graph_helper.py:15-37 | on means that are nowhere more than a threshold apart it returns if and only if none are exactly a threshold apart |
| `OrderBucket.StuckForever` | graph_helper.py:35-42 | a list that nothing splits but that is not close is rotated for ever |
| `OrderBucket.ExactGapDiverges` | graph_helper.py:15-37 | two series exactly a threshold apart are never ordered |
| `OrderBucket.SortedFacts` | graph_helper.py:32-34 | series that count as equal are sorted by description |
| `CsvMerge.Merge` | csvmerge:44-55 | for any input the loop ends with every row printed once, in order, in its file's columns; on increasing keys the lines are the outer join |
| `CsvMerge.JoinStep` | csvmerge:46-55 | printing the smallest key next in line keeps the join of what was read so far |
| `CsvMerge.NextKey` | csvmerge:47 | the smallest key next in line, exhausted files counting as infinite |
| `CsvMerge.BuildLine` | csvmerge:48-54 | the line for that key and the files that move on |
| `CsvMerge.Join` | csvmerge:18-55 | from lines of text to lines of text: exactly when headers differ, a file has no header or rows, or a row has no integer or delimiter, and otherwise the header line and the outer join; with rows as wide as the header, constant delimiters if and only if no row loses one |
| `CsvMerge.RenderedColumns` | csvmerge:48-55 | a printed line split at its delimiters is the key and then the columns of each file, in the order of the files, empty ones where a file has no row |
| `CsvMerge.FileColumns` | csvmerge:48-55 | when no row loses a column, file i has the columns from 1 + i * numdelims on of every printed line |
| `CsvMerge.HeaderColumns` | csvmerge:31-36 | the header line split at its delimiters is the first header and its columns behind the first again for every other file |
| `CsvMerge.DelimitersConstantIff` | csvmerge:42-55 | when rows have the header's delimiter count, every printed line has it once per file if and only if no row loses a delimiter to the strip in restcols |
| `CsvMerge.HeaderRegularIff` | csvmerge:31-36 | the same for the repeated header line |
| `CsvText.RestColsKeepsIff` | csvmerge:13-16 | restcols keeps all but the first delimiter exactly when the delimiter is no white space or each of the others has something else on both sides |
| `CsvText.LineParts` | csvmerge:8-16 | firstcol reads what is before the first delimiter, restcols returns what is behind it without the white space around it |
| `CsvText.TabRowLosesColumn` | csvmerge:13-16 | with tabs, a row as wide as its header whose last column is empty loses a delimiter |
| `CsvText.KeyHasNoDelimiter` | csvmerge:8-11 | the printed key holds no delimiter, whatever the delimiter, because it is made of characters of the first field |
| `CsvText.IntRoundTrip` | csvmerge:11-48 | a printed key reads back as the same integer |

## Left out

- OutputsListAll: the condition on wrap-around (a period that divides 2^32, or multiplier * (period - 1) + increment below 2^32) is exact while no draw wraps more than once (`FullCycleIffWrapHarmless`); beyond that it is sufficient but not necessary (`WrapMayKeepFullCycle`), and whether the cycle survives depends on the individual numbers.
- IpSum: an odd trailing byte is not summed, as in the code, although RFC 1071 pads it with zero.
- FillPacket: a packet is built as a value, not stored field by field into its buffer; receive statistics are left out.
- HandlePacket: packets shorter than 46 bytes, where the code would read behind the data, are not modelled.
- RssSetup: the NUMA stride of the receive port is not modelled.
- Traversal without `-r` (in address order), cycle alternation, timing, logging and signal handling in `clients/square_evictions.c`.
- Options, sysfs cache parameters and the `-f` factor check in `main` of `clients/square_evictions.c`.
- Failure paths of fork, CPU affinity and kill in `bench_commands.c`, and `wait_benchmarks`.
- The packet loop and statistics of `clients/lockserver-ng.c`.
- `rte_*_cksum` calls and address rewriting in `test-pmd/csumonly.c`; out-of-packet reads are modelled as zero.
- Stream statistics, link checks, bonding changes and the reconfigure commands of testpmd.
- `dcb_fwd_config_setup`, which depends on tables reported by the driver.
- Join: the lines printed before a malformed row raises ValueError are not modelled; nor are delimiters of several characters and non-ASCII digits.
- `order_ybar` and plotting in `graph_helper.py`, and all other plotting, JSON and shell scripts.
- `test-pmd/cmdline.c` and `test-pmd/parameters.c`: command and option tables.
