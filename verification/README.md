# Verification models for gapso-rbf-pid

Dafny models of the repository's own queue discipline and of the tools of the bundled iproute2 that
carry the most logic, with proofs about them. `dafny verify dfyconfig.toml` checks everything.

| module | models |
|---|---|
| `SsFilter` | the socket-filter compiler of `ss`: filter trees to relocatable jump bytecode, against the direct evaluator |
| `MakeTable` | the inverse-distribution table builder of netem, end to end on arrays |
| `Netlink`, `NlFlush` | attributes in netlink messages, nested; the message walk, and the batches of deletes that a flush sends |
| `U32Selector` | the u32 classifier's packing of match constraints into merged keys |
| `InetPrefix` | prefix comparison, netmasks and the route selectors `root`, `match`, `exact` |
| `RbfQueue` | the GAPSO-RBF-PID queue discipline: packets, counters, sampled history, marking |
| `Swarm` | its particle swarm training |
| `LlMap` | the hash table of links, as linked nodes in chains |
| `Arpd` | the ARP daemon's cache with its negative entries |
| `Nstat` | the one-pass merge of counter lists |
| `FlowOps` | the and/or/xor compiler of the flow classifier |
| `Basics`, `Bits`, `Words` | optional values and bytes, machine words as bits, unsigned arithmetic |

How things are represented:

- A 32-bit word that is combined bit by bit is the list of its bits in memory order (`Bits`), in which
  `htonl` is the identity. Bytecode is counted in cells of four bytes; lengths that the source stores in a `char`
  or in 16 bits are reduced to that width in bytes before they are used.
- What the source mutates is mutated here: buffers and tables are arrays, records with methods are classes,
  link nodes are linked. Each such method is proved against a specification function, and the theorems are
  about that function. Two-dimensional arrays of the swarm are arrays of rows.
- What comes from outside is a parameter: random numbers, the clock, whether a send or an allocation succeeds, what a
  child queue does with a packet, what the other route or address filters say, the exponential function.
- Real numbers stand for `double`.

Where the code does not do what one would expect, the code is modelled and the exact condition is proved:

- A host list with several addresses emits the head's address in every block (misc/ss.c:835-846). The bytecode agrees
  with the evaluator for a list exactly when the head covers the whole list (`SsFilter.LeafExactIff`).
- The bin that completes the total is mapped to slot `inversesize` (netem/maketable.c:148-152), one past the table
  allocated (`MakeTable.LastBinPastTable`). The model's array has that slot; the finished table ends before it.
- A 16-bit constraint at an odd offset tests other bytes than it names (`U32Selector.Key16ExactIff`), and an IPv6 prefix
  of length 31 modulo 32 tests one bit more (tc/f_u32.c:386; `U32Selector.Ip6ExactIff`).
- `change` and `graft` leave the backlog of the old child behind (`RbfQueue.BacklogStep`), until a reset or a dump.
- The probe count of a negative entry is a byte (`Arpd.ExactIffUpTo255`); an address that starts with 0xFF reads as
  a negative entry, and one that lengthens the stored one is not taken up (`Arpd.AnswersLastLearnt`).
- Counters that two lists hold in different orders are missed by the merge (`Nstat.MatchedIffSameOrder`).

## Model

| member | source | states |
|---|---|---|
| `SsFilter.BytecodeAgrees` | iproute2-3.1.0/misc/ss.c:700-790 | For every filter tree and every socket, running the compiled bytecode accepts exactly when the direct evaluator returns true, given that every stored length fits and every leaf is exact; a rejecting run lands one cell past the end. |
| `SsFilter.CompileCorrect` | iproute2-3.1.0/misc/ss.c:806-928 | Without any condition on the leaves: the compiled code is well shaped and decides every socket as direct evaluation of what was emitted (a host list counts for its head, a bound for its low 16 bits). |
| `SsFilter.LeafExactIff` | iproute2-3.1.0/misc/ss.c:815-887 | A single leaf agrees with the direct evaluator on all sockets if and only if its host list is covered by its head, or its port bound fits 16 bits or is trivially out of range. |
| `SsFilter.OneAddressIsExact` | iproute2-3.1.0/misc/ss.c:824-846 | A host list of one address always counts in full. |
| `SsFilter.EmittedAgrees` | iproute2-3.1.0/misc/ss.c:780-786 | Exact leaves make the whole tree exact, through AND, OR and NOT. |
| `SsFilter.ChainRuns` | iproute2-3.1.0/misc/ss.c:835-853 | A chain for a host list of any length is well shaped and accepts exactly when the condition that its blocks carry holds. |
| `SsFilter.Shape` | iproute2-3.1.0/misc/ss.c:806-928 | Any compiled filter can be walked by `yes` from op to op to exactly its end, and every `no` leads forward to an op, the end or one cell past it. |
| `SsFilter.WalkEnds` | iproute2-3.1.0/misc/ss.c:795-803 | The walk by `yes` over well-shaped code ends exactly on the end, so relocation never aborts. |
| `SsFilter.PatchExact` | iproute2-3.1.0/misc/ss.c:792-804 | Relocation changes the `no` of precisely the ops that leave the code by one cell, by the given amount, and no other byte. |
| `SsFilter.JumpsPatch` | iproute2-3.1.0/misc/ss.c:888-899 | Relocated code followed by its sibling is well shaped again. |
| `SsFilter.ExecPatch` | iproute2-3.1.0/misc/ss.c:888-899 | Relocated code followed by its sibling runs the sibling on success and leaves by one cell on failure. |
| `SsFilter.ExecAppend` | iproute2-3.1.0/misc/ss.c:901-923 | Code followed by a jump op runs that op on success and skips it on failure. |
| `SsFilter.ExecLands` | iproute2-3.1.0/misc/ss.c:806-928 | Well-shaped code never gets stuck: every run terminates on the end or one cell past it. |
| `SsFilter.CoversSound` | iproute2-3.1.0/misc/ss.c:669-686 | If the head of a list covers an address prefix, every socket address that matches the prefix matches the head, IPv4-mapped addresses included. |
| `SsFilter.CoversComplete` | iproute2-3.1.0/misc/ss.c:669-686 | If it does not, some socket address matches the prefix and not the head. |
| `SsFilter.MappedMatches` | iproute2-3.1.0/misc/ss.c:674-683 | An address ::ffff:w matches an IPv4 prefix exactly when w agrees with it on the leading bits, or the address itself does. |
| `SsFilter.OthersMatch` | iproute2-3.1.0/misc/ss.c:669-686 | Any other address, and any prefix that is not IPv4, is compared on its own leading bits only. |
| `SsFilter.PortBounds` | iproute2-3.1.0/misc/ss.c:759-779 | A bound includes the port it names, on the side it names; its negation excludes it; `auto` asks for an ephemeral local port. |
| `SsFilter.OneHostSelects` | iproute2-3.1.0/misc/ss.c:727-758 | A list of one host selects by its port, or any for -1, and by its prefix, or any for length 0, on the side it names. |
| `SsFilter.SsfilterPatch` | iproute2-3.1.0/misc/ss.c:793-804 | The in-place walk changes the buffer to the relocated code and nothing behind it. |
| `SsFilter.CompileHosts` | iproute2-3.1.0/misc/ss.c:815-854 | The loop over a host list writes exactly the chain of blocks and jumps. |
| `SsFilter.ChainLength` | iproute2-3.1.0/misc/ss.c:824-832 | The first loop over the list computes the length that the second one fills. |
| `SsFilter.SsfilterBytecompile` | iproute2-3.1.0/misc/ss.c:806-928 | The recursive compiler over fresh buffers produces the code the theorems are about. |
| `MakeTable.TableShape` | iproute2-3.1.0/netem/maketable.c:225-230 | For any non-empty histogram the finished table never falls, stays within a short and keeps every entry that the inversion set. |
| `MakeTable.TableIsQuantile` | iproute2-3.1.0/netem/maketable.c:225-230 | Every entry of the finished table that the inversion set is the quantile for its slot: of the samples as many as the slot's share, to the nearest slot, lie below it in units of sigma / 8192 and all others above, up to half a unit and half a bin. |
| `MakeTable.BuildTable` | iproute2-3.1.0/netem/maketable.c:225-230 | The four in-place passes, run one after the other on any non-empty sample, give that table, from a histogram that counts every sample once, with every entry set the quantile for its slot. |
| `MakeTable.BinIsScaled` | iproute2-3.1.0/netem/maketable.c:107-112 | The value stored for a sample's bin is 8192 times its distance from mu in sigmas, kept inside a short, up to half a unit and half a bin. |
| `MakeTable.RintNearest` | iproute2-3.1.0/netem/maketable.c:109-149 | Rounding goes to the nearest integer, and to the even one halfway. |
| `MakeTable.MakeDist` | iproute2-3.1.0/netem/maketable.c:92-119 | Bin `k` counts the samples that round into it, ends included, and the counts add up to the number of samples. |
| `MakeTable.CumulativeDist` | iproute2-3.1.0/netem/maketable.c:121-132 | In place, entry `k` becomes the sum of the entries up to `k`; the total is the sum of all. |
| `MakeTable.CumulativeShape` | iproute2-3.1.0/netem/maketable.c:121-132 | Of a histogram the running sum never falls and ends on the total. |
| `MakeTable.InvertTable` | iproute2-3.1.0/netem/maketable.c:134-156 | Each slot of the inverse holds the value of the last bin mapped to it, or the marker. |
| `MakeTable.InverseIndexMonotone` | iproute2-3.1.0/netem/maketable.c:147-148 | Bins are mapped to slots in order, and no slot lies beyond `inversesize`. |
| `MakeTable.SumIsUpTo` | iproute2-3.1.0/netem/maketable.c:121-132 | The running sum of a histogram counts the samples in a bin or a lower one. |
| `MakeTable.SlotIsRank` | iproute2-3.1.0/netem/maketable.c:147-148 | The slot of a bin is the bin's share of all samples, in slots of the table, to the nearest one. |
| `MakeTable.IndexEnds` | iproute2-3.1.0/netem/maketable.c:145-152 | A share of nothing is mapped to slot 0, and the full total to slot `inversesize`. |
| `MakeTable.LastBinPastTable` | iproute2-3.1.0/netem/maketable.c:145-152 | For every non-empty histogram the last bin is mapped to the slot one past the table as allocated. |
| `MakeTable.InverseRises` | iproute2-3.1.0/netem/maketable.c:145-153 | Read from left to right, the entries that are set never fall. |
| `MakeTable.InterpolateTable` | iproute2-3.1.0/netem/maketable.c:158-180 | In place, gaps are filled with the floored line between the original neighbours, although earlier gaps have been overwritten by then; entries behind `limit` stay. |
| `MakeTable.FilledShape` | iproute2-3.1.0/netem/maketable.c:158-180 | Interpolation gives a table that never falls, stays within a short and keeps what was set. |
| `MakeTable.FilledGap` | iproute2-3.1.0/netem/maketable.c:158-180 | An entry in a gap lies on the floored line between the nearest set entries, with -32768 before the table and 32767 behind it. |
| `MakeTable.CDivIsFloor` | iproute2-3.1.0/netem/maketable.c:171-173 | Under rising ends the truncating division of C gives the floored line. |
| `MakeTable.NoOverflow` | iproute2-3.1.0/netem/maketable.c:171-173 | The product formed for a gap stays inside a 32-bit int. |
| `MakeTable.GapIsEmpty` | iproute2-3.1.0/netem/maketable.c:166-173 | Between the two ends that a gap is interpolated from, nothing is set. |
| `Netlink.ParseRoundTrip` | iproute2-3.1.0/lib/libnetlink.c:651-663 | Parsing encoded attributes uses the bytes up to exactly zero and gives, for each type, the first attribute of that type with its exact payload, or NULL; a nest's payload is again encoded attributes. |
| `Netlink.Message.BuildAll` | iproute2-3.1.0/lib/libnetlink.c:552-595 | Any list of attribute trees that fits, appended with nests opened and closed, is encoded behind what was there, which does not change. |
| `Netlink.Message.AddattrL` | iproute2-3.1.0/lib/libnetlink.c:552-568 | Succeeds exactly when the attribute fits; writes header and payload at the aligned end, keeps the message aligned and within `maxlen`, changes nothing else, and nothing at all on refusal. |
| `Netlink.Message.Addattr32` | iproute2-3.1.0/lib/libnetlink.c:536-550 | The same for a four-byte payload, with its own size test. |
| `Netlink.Message.AddattrNest` | iproute2-3.1.0/lib/libnetlink.c:583-589 | Opens a nest at the aligned end; on refusal changes nothing but returns the same place. |
| `Netlink.Message.AddattrNestEnd` | iproute2-3.1.0/lib/libnetlink.c:591-595 | Patches the length of the nest to reach the aligned end, and no other byte; after a refused opening that writes a zero behind the message. |
| `Netlink.Message.BuildNest` | iproute2-3.1.0/lib/libnetlink.c:583-595 | Opening, filling and closing a nest encodes the nest with its children. |
| `Netlink.ParseRtattr` | iproute2-3.1.0/lib/libnetlink.c:651-663 | The loop fills the table with the place of the first attribute of every type up to `max`, over any bytes. |
| `Netlink.HeaderLayout` | iproute2-3.1.0/include/linux/rtnetlink.h:137-141 | The header of an attribute holds its length in the first two bytes and its type in the next two. |
| `Netlink.FoundInside` | iproute2-3.1.0/lib/libnetlink.c:651-663 | Of arbitrary bytes: every attribute found lies wholly inside them and ends before its successor begins. |
| `Netlink.FoundApart` | iproute2-3.1.0/lib/libnetlink.c:651-663 | Of arbitrary bytes: any two of the attributes found are disjoint. |
| `Netlink.StopsExactly` | iproute2-3.1.0/include/linux/rtnetlink.h:146-148 | The walk stops exactly where fewer than four bytes are left, or the length is below four or beyond the end. |
| `Netlink.UnpaddedFound` | iproute2-3.1.0/lib/libnetlink.c:651-663 | A last attribute without its padding is found all the same, and what is missing shows as a negative rest. |
| `Netlink.FirstIsFound` | iproute2-3.1.0/lib/libnetlink.c:651-663 | What is kept for a type is the first attribute found that has the type. |
| `Netlink.ParseEncoded` | iproute2-3.1.0/lib/libnetlink.c:654-660 | The walk over encoded attributes finds each of them in order and leaves no deficit. |
| `Netlink.FoundParts` | iproute2-3.1.0/lib/libnetlink.c:651-663 | An attribute found has the type and exactly the payload that was encoded. |
| `Netlink.FirstMatches` | iproute2-3.1.0/lib/libnetlink.c:651-663 | Of encoded attributes the place kept for a type is that of the first attribute of the type, or NULL if there is none. |
| `Netlink.EncodesAppend` | iproute2-3.1.0/lib/libnetlink.c:552-568 | Encoded attributes behind encoded attributes are the encoding of the joined lists. |
| `Netlink.AlignIsMask` | iproute2-3.1.0/include/linux/netlink.h:75-76 | The step-by-step alignment of the model is the rounding mask of the source. |
| `NlFlush.FlushRound` | iproute2-3.1.0/ip/ipaddress.c:838-880 | A flush round that succeeds leaves the buffer empty, and the datagrams sent deliver, for the accepted messages in order and once each, a message of the delete type with the one flag NLM_F_REQUEST, numbered on from the dump request, and otherwise the same bytes. As long as all sends succeed, it succeeds exactly when the datagrams received make up a dump. |
| `NlFlush.RewriteReads` | iproute2-3.1.0/ip/ipaddress.c:525-530 | Rewriting sets the bytes of type, flags and sequence number to those of a delete request and leaves all others. |
| `NlFlush.DeletesRead` | iproute2-3.1.0/ip/iproute.c:319-323 | What is read from the i-th message delivered: type, flags, sequence number and all other bytes, field by field. |
| `NlFlush.CompletesExactly` | iproute2-3.1.0/lib/libnetlink.c:206-266 | Datagrams make up a dump exactly when one of them ends it and all before it are clean, not empty, and used up or cut short. |
| `NlFlush.FlushBuffer.Take` | iproute2-3.1.0/ip/iproute.c:313-325 | Taking a message keeps the fill pointer inside the buffer and keeps sent and held messages together equal to the deletes of all messages taken; a failed send takes nothing, and nothing else makes it fail. |
| `NlFlush.FlushBuffer.Place` | iproute2-3.1.0/ip/ipaddress.c:519-532 | The message is copied to the aligned end, and reads there as a delete with the next sequence number. |
| `NlFlush.FlushBuffer.FlushUpdate` | iproute2-3.1.0/ip/iproute.c:117-125 | Sends exactly what is held and empties the buffer, or keeps everything. |
| `NlFlush.FlushBuffer.Request` | iproute2-3.1.0/ip/ipaddress.c:859-863 | A round starts with an empty account and takes one sequence number for the dump. |
| `NlFlush.RunFilter` | iproute2-3.1.0/lib/libnetlink.c:211-250 | One filter's pass hands over the accepted messages of the datagram up to the one that ends the dump. |
| `NlFlush.RunFilters` | iproute2-3.1.0/lib/libnetlink.c:211-250 | Each filter makes a whole pass before the next one starts. |
| `NlFlush.JudgeExact` | iproute2-3.1.0/ip/ipaddress.c:466-476 | What the filters for routes and for secondary, primary and all addresses accept and call malformed, by type, length and the secondary flag. |
| `NlFlush.PassTakes` | iproute2-3.1.0/lib/libnetlink.c:214-247 | A pass takes only messages from the kernel for this port and this dump that its filter accepts. |
| `NlFlush.PassMisses` | iproute2-3.1.0/lib/libnetlink.c:214-247 | And it misses none of these that comes before the message that ends the dump. |
| `NlFlush.SpoilsExactly` | iproute2-3.1.0/lib/libnetlink.c:234-247 | Only an error message of this dump, or one that the filter calls malformed, makes a pass fail. |
| `NlFlush.DumpFilter` | iproute2-3.1.0/lib/libnetlink.c:206-266 | As long as all sends succeed, a dump succeeds exactly when the datagrams received make one up, and then it has accepted exactly what the filters choose in them. |
| `NlFlush.WalkExtended` | iproute2-3.1.0/lib/libnetlink.c:214-249 | A message put behind a used-up datagram at its aligned end is found by the receiver after all the others, which are found as before. |
| `NlFlush.HeaderLayout` | iproute2-3.1.0/include/linux/netlink.h:38-44 | Length, type, flags, sequence number and port lie in the 16 bytes of a message header, in this order. |
| `NlFlush.StopsExactly` | iproute2-3.1.0/include/linux/netlink.h:83-85 | The walk stops exactly where no whole header is left, or the length is less than one or beyond the end. |
| `NlFlush.SecondariesFirst` | iproute2-3.1.0/ip/ipaddress.c:646-668 | Within a datagram all accepted secondaries come before all accepted primaries, and both passes together accept what one pass for all addresses would. |
| `NlFlush.SplitByKind` | iproute2-3.1.0/ip/ipaddress.c:646-668 | The secondary and the primary pass split the accepted addresses between them. |
| `NlFlush.OnlySecondaries` | iproute2-3.1.0/ip/ipaddress.c:657-666 | The secondary pass accepts secondary addresses only. |
| `U32Selector.PackAllMeaning` | iproute2-3.1.0/tc/f_u32.c:117-147 | After any sequence of accepted calls a packet matches the selector exactly when it meets every constraint given, and the table stays well formed: one key for each place, values inside masks. |
| `U32Selector.PackAllAppend` | iproute2-3.1.0/tc/f_u32.c:117-147 | Packing a list is packing its front and then, unless that was refused, its rest. |
| `U32Selector.PackMeaning` | iproute2-3.1.0/tc/f_u32.c:117-147 | One accepted call narrows the selection by exactly its constraint. |
| `U32Selector.RefusalIsUnsatisfiable` | iproute2-3.1.0/tc/f_u32.c:125-134 | A call refused for a conflict is one that no packet can meet together with the earlier ones. |
| `U32Selector.ConflictIff` | iproute2-3.1.0/tc/f_u32.c:126-130 | The conflict test is exact: two demands on one word clash if and only if no packet meets both. |
| `U32Selector.PackRefusedIff` | iproute2-3.1.0/tc/f_u32.c:117-147 | A call is refused if and only if the table has a key for its place that no packet can meet together with it, or has none and is full or the offset is not that of a word. |
| `U32Selector.Key8Meaning` | iproute2-3.1.0/tc/f_u32.c:174-194 | A byte constraint, shifted into its word, tests exactly the byte it names. |
| `U32Selector.Key16ExactIff` | iproute2-3.1.0/tc/f_u32.c:157-172 | A 16-bit constraint tests the two bytes it names if and only if its offset is even or it tests nothing. |
| `U32Selector.Key16Meaning` | iproute2-3.1.0/tc/f_u32.c:157-172 | For any offset: it tests the upper or the lower half of the word that holds the offset. |
| `U32Selector.IpMeaning` | iproute2-3.1.0/tc/f_u32.c:347-351 | An IPv4 prefix constrains exactly its leading bits. |
| `U32Selector.Ip6Meaning` | iproute2-3.1.0/tc/f_u32.c:383-398 | The words of an IPv6 prefix together test exactly its leading bits, a remainder of 31 counting as 32. |
| `U32Selector.Ip6ExactIff` | iproute2-3.1.0/tc/f_u32.c:383-398 | The packed IPv6 prefix is exact if and only if its length is not 31 modulo 32. |
| `U32Selector.EtherMeaning` | iproute2-3.1.0/tc/f_u32.c:472-476 | Packing an Ethernet address byte by byte constrains exactly its bytes. |
| `U32Selector.PackedIp6` | iproute2-3.1.0/tc/f_u32.c:383-398 | A packed IPv6 prefix narrows the selection made so far by its tested leading bits. |
| `U32Selector.PackedEther` | iproute2-3.1.0/tc/f_u32.c:472-476 | A packed Ethernet address narrows the selection made so far by its six bytes. |
| `U32Selector.SelectorMeaning` | iproute2-3.1.0/tc/f_u32.c:117-147 | A selector built by any calls selects exactly the packets that meet all it accepted. |
| `U32Selector.Selector.PackKey` | iproute2-3.1.0/tc/f_u32.c:117-147 | The scan and the in-place merge refuse or accept as the table function does, and record what was accepted; refusal changes nothing. |
| `U32Selector.Selector.PackKey8` | iproute2-3.1.0/tc/f_u32.c:174-194 | The same through range test and shift of a byte constraint. |
| `U32Selector.Selector.PackKey16` | iproute2-3.1.0/tc/f_u32.c:157-172 | The same for a 16-bit constraint. |
| `U32Selector.Selector.PackIpAddr` | iproute2-3.1.0/tc/f_u32.c:347-351 | The packing part for an IPv4 prefix adds its one constraint or is refused. |
| `U32Selector.Selector.PackIp6Addr` | iproute2-3.1.0/tc/f_u32.c:383-398 | The loop over the words succeeds if and only if the constraints of the whole prefix can be packed one after the other, and then has added exactly those. |
| `U32Selector.Selector.PackEtherAddr` | iproute2-3.1.0/tc/f_u32.c:472-476 | The loop over the bytes succeeds if and only if the constraints of all six can be packed one after the other, and then has added exactly those. |
| `InetPrefix.SelectorIsContainment` | iproute2-3.1.0/ip/iproute.c:169-215 | `root P` accepts exactly the routes whose address set lies in P, `match P` exactly those whose set contains P, for every address and prefix length. |
| `InetPrefix.ExactIsEquality` | iproute2-3.1.0/ip/iproute.c:1230-1235 | `exact P`, which sets both, accepts exactly the routes for the very same prefix. |
| `InetPrefix.ContainedIff` | iproute2-3.1.0/ip/iproute.c:169-175 | One prefix's addresses lie inside another's if and only if it is at least as long and agrees on the shorter one's bits. |
| `InetPrefix.MatchIsEqualPrefix` | iproute2-3.1.0/lib/utils.c:435-461 | The word-wise comparison returns zero exactly when the leading bits are equal, for every length. |
| `InetPrefix.Mask2Bits` | iproute2-3.1.0/lib/utils.c:46-59 | The prefix length of a netmask, and -1 exactly when the word is not a netmask. |
| `InetPrefix.NetmaskTest` | iproute2-3.1.0/lib/utils.c:50-54 | The test `host & (host + 1)` vanishes exactly for netmasks. |
| `RbfQueue.QlenIsChildCount` | modules/sch_rbfgrad.c:98-307 | Over any interleaving of all operations, with grafted children empty, the discipline's length equals its child's packet count. |
| `RbfQueue.QlenStep` | modules/sch_rbfgrad.c:821-836 | A single operation keeps that equality if and only if it does not graft a child that already holds packets. |
| `RbfQueue.PacketsConserved` | modules/sch_rbfgrad.c:98-307 | Over any run of any operations every packet that was there or came in is sent, lost or still queued, each exactly once. |
| `RbfQueue.ArrivalsAccounted` | modules/sch_rbfgrad.c:98-292 | On runs of enqueue, dequeue and drop, from an empty child and cleared counters, with a child that accepts or rejects: arrivals are early drops, child rejects, departures, evictions and packets still queued, and the backlog is the queued bytes. |
| `RbfQueue.InitialIsCleared` | modules/sch_rbfgrad.c:728-762 | A discipline that has just been set up has an empty child and cleared counters. |
| `RbfQueue.BacklogStep` | modules/sch_rbfgrad.c:98-307 | A single operation keeps the backlog equal to the queued bytes if and only if a change replaces no bytes, a graft brings as many bytes as it takes away, and the child swaps no packet for one of another size. |
| `RbfQueue.LossesCounted` | modules/sch_rbfgrad.c:213-247 | On runs of enqueue, dequeue and drop over a child that accepts or rejects, begun with the drop counter equal to the sum of the three others: early drops, child rejects and evictions count every packet lost, and the drop counter stays their sum. |
| `RbfQueue.CausesCounted` | modules/sch_rbfgrad.c:213-292 | Over any run each of the four counters has grown by the operations of its own cause: early drops, packets that carry the mark, drops by the child, evictions. |
| `RbfQueue.HistoryIsWindow` | modules/sch_rbfgrad.c:113-159 | After any run the history holds the last ten sampled lengths since the last configuration, newest first and zeros after, with the probabilities in force; the error terms are the newest three lengths less the reference, whichever way each packet was marked. |
| `RbfQueue.OneSamplePerTwenty` | modules/sch_rbfgrad.c:113-114 | One sample for every twenty arrivals, whatever happens between them and across reconfigurations. |
| `RbfQueue.ProbabilityBounded` | modules/sch_rbfgrad.c:711-722 | The probability stays between the configured bounds all through a run if and only if every configuration in it is sane. |
| `RbfQueue.ControlPushesBack` | modules/sch_rbfgrad.c:711-722 | With a steady error and an integral gain that is not negative: a queue above its reference never lowers the marking probability, one below never raises it, and one at the reference leaves it alone. |
| `RbfQueue.RiseIsPid` | modules/sch_rbfgrad.c:713-716 | How the control step answers a change of each of the three error terms, and of all alike. |
| `RbfQueue.ControlExact` | modules/sch_rbfgrad.c:711-722 | The new probability is the old one and the PID terms of the errors over 6500, inside the bounds. |
| `RbfQueue.MarksCounted` | modules/sch_rbfgrad.c:213-222 | Over any run the overlimit counter is the early drops plus the marks. |
| `RbfQueue.MarkStep` | include/rbfgrad.h:275-310 | An arrival is marked, and counted once for it, exactly when the number drawn and one more is within the probability times 2147483647. |
| `RbfQueue.ArrivalOutcome` | modules/sch_rbfgrad.c:213-247 | An arrival so marked is dropped unless ECN is enabled and possible; any other goes to the child; with what changes in queue, length, backlog and counters for each outcome. |
| `RbfQueue.ChildAfterIs` | modules/sch_rbfgrad.c:225-239 | The child gets an accepted packet at its end, is as it was after a reject, and loses its head to a displacing one. |
| `RbfQueue.RbfSched.Control` | modules/sch_rbfgrad.c:711-722 | The PID step from the three error terms, clamped to the bounds, with the old probability kept. |
| `RbfQueue.RbfSched.Enqueue` | modules/sch_rbfgrad.c:98-247 | The whole new state after an arrival: sample, marking decision, early drop or hand-over to the child. |
| `RbfQueue.RbfSched.Shift` | modules/sch_rbfgrad.c:146-154 | The two history arrays move up by one in place, oldest entry lost, newest in front. |
| `RbfQueue.RbfSched.Dequeue` | modules/sch_rbfgrad.c:249-265 | The packet given back and the new state. |
| `RbfQueue.RbfSched.Drop` | modules/sch_rbfgrad.c:275-292 | The bytes evicted and the new state. |
| `RbfQueue.RbfSched.Reset` | modules/sch_rbfgrad.c:294-307 | The child is emptied and both counters are cleared; the history stays. |
| `RbfQueue.RbfSched.Change` | modules/sch_rbfgrad.c:367-387 | A positive limit replaces the child; the length gives up its packets, the backlog does not; the history starts afresh. |
| `RbfQueue.ChangeRestarts` | modules/sch_rbfgrad.c:367-387 | A change is in force at once, with the initial probability and an empty history; what it leaves alone. |
| `RbfQueue.RbfSched.SetParms` | include/rbfgrad.h:157-227 | The loops reset both history arrays and the error terms. |
| `RbfQueue.RbfSched.Graft` | modules/sch_rbfgrad.c:821-836 | The length gives up the old child's packets, the backlog does not. |
| `Swarm.GlobalBest` | modules/sch_rbfgrad.c:581-675 | After training, `gbestval` is the least error over all particles and all positions evaluated, and it is the error at `gbest`, which is one of those positions. |
| `Swarm.PersonalBest` | modules/sch_rbfgrad.c:606-614 | Each particle's best is the best of the positions it has been evaluated at. |
| `Swarm.NeverWorse` | modules/sch_rbfgrad.c:616-625 | The least error never grows from epoch to epoch. |
| `Swarm.BestIsFirstMin` | modules/sch_rbfgrad.c:616-623 | The scan finds the least value, and the first of several. |
| `Swarm.StepBounded` | modules/sch_rbfgrad.c:642-654 | No particle moves by more than the speed limit in any dimension in one epoch. |
| `Swarm.InertiaFalls` | modules/sch_rbfgrad.c:630-634 | The inertia starts at 0.9 and falls in equal steps until it stays at 0.2. |
| `Swarm.PullIsAffine` | modules/sch_rbfgrad.c:644 | How a velocity answers a change of the old one, of either best and of the position: by the inertia, and twice the random numbers. |
| `Swarm.MoveExact` | modules/sch_rbfgrad.c:639-654 | In one epoch every velocity is limited to 0.01 either way and then added to the position. |
| `Swarm.Trainer.Train` | modules/sch_rbfgrad.c:581-675 | The loops over arrays carry out exactly the training that the theorems are about; `w_k` ends up as `gbest`, with `gbestval` its error. |
| `Swarm.Trainer.GetRbfSse` | modules/sch_rbfgrad.c:421-448 | The nested loops compute the network output and half its squared error. |
| `Swarm.OutputIsLinear` | modules/sch_rbfgrad.c:430-437 | Raising a weight raises the output by as much times the exponential of minus the ten squared differences to the unit's centre over twice its squared width. |
| `Swarm.OutputAtZero` | modules/sch_rbfgrad.c:430-437 | With all weights zero the output is zero. |
| `Swarm.SseIsHalfSquare` | modules/sch_rbfgrad.c:439 | The error is half the square of what the output misses the target by. |
| `Swarm.Trainer.Select` | modules/sch_rbfgrad.c:590-600 | The scan in place selects the first least personal best. |
| `Swarm.Trainer.Remember` | modules/sch_rbfgrad.c:606-614 | One loop evaluates each particle and keeps its better position. |
| `Swarm.Trainer.MoveParticle` | modules/sch_rbfgrad.c:639-654 | A particle's velocity in every dimension is computed from its old position, clamped, and then added. |
| `LlMap.LookupIsLatest` | iproute2-3.1.0/lib/ll_map.c:47-94 | After any sequence of link messages the record found for an index has the type, flags, name and address of the latest message taken up for it, untouched by messages for other indexes. |
| `LlMap.TableGrows` | iproute2-3.1.0/lib/ll_map.c:69-82 | Hanging a new node behind the last one of its chain keeps the structure: one node for each index, each in its own bucket's acyclic chain. |
| `LlMap.OnePerIndex` | iproute2-3.1.0/lib/ll_map.c:69-74 | No index has two nodes. |
| `LlMap.InOwnChain` | iproute2-3.1.0/lib/ll_map.c:42-45 | An index is known exactly when its own bucket's chain has a node for it. |
| `LlMap.BucketsGrow` | iproute2-3.1.0/lib/ll_map.c:69-82 | The other chains are not touched by the insertion. |
| `LlMap.LlMap.RememberIndex` | iproute2-3.1.0/lib/ll_map.c:47-94 | The linked table after a message refines the map update: links of other indexes stay, and a refused message changes nothing. |
| `LlMap.LlMap.RememberAll` | iproute2-3.1.0/lib/ll_map.c:47-94 | The linked table after any sequence of messages refines the map after that sequence. |
| `LlMap.LlMap.IndexToType` | iproute2-3.1.0/lib/ll_map.c:119-129 | The type of the record for the index, or -1. |
| `LlMap.LlMap.IndexToFlags` | iproute2-3.1.0/lib/ll_map.c:131-142 | The flags of the record for the index, or 0. |
| `LlMap.LlMap.IndexToAddr` | iproute2-3.1.0/lib/ll_map.c:144-163 | The leading bytes of the latest address, cut to the room given and to what is stored, although a shorter address leaves old bytes behind it. |
| `Arpd.AnswersLastLearnt` | iproute2-3.1.0/misc/arpd.c:341-423 | All through a run every question about a key would be answered with exactly the address last learnt and not invalidated since, and with nothing without one, if and only if no address taught for the key starts with 0xFF or merely lengthens the one known at its time. |
| `Arpd.HoldsIffProper` | iproute2-3.1.0/misc/arpd.c:341-423 | The same for the positive entry that the database holds for the key. |
| `Arpd.QuestionIsAnswered` | iproute2-3.1.0/misc/arpd.c:350-374 | A question is answered with the positive entry held for its key, and nothing but a question is ever answered. |
| `Arpd.LearntIsAnswered` | iproute2-3.1.0/misc/arpd.c:410-421 | An address just learnt is what is answered if and only if it does not start with 0xFF and does not merely lengthen the one stored. |
| `Arpd.CountsProbes` | iproute2-3.1.0/misc/arpd.c:376-391 | Over any run with a monotone clock, in which no address taught starts with 0xFF, a negative entry, while valid, counts the probes sent since it was made, as a byte; up to 255 active probes it is that number and never exceeds the limit. |
| `Arpd.ProbedExactly` | iproute2-3.1.0/misc/arpd.c:360-391 | Over any run of less than 2^32 seconds, with proper addresses and at most 255 active probes: a question is probed if and only if no address is known for the key and no recent failure has had its share of probes, as far as probing is enabled and the probe gets out. |
| `Arpd.FailureShown` | iproute2-3.1.0/misc/arpd.c:376-408 | Over such a run the negative entry of a key is exactly the failure remembered for it: when it was made and how many probes it has had. |
| `Arpd.DoubtProbes` | iproute2-3.1.0/misc/arpd.c:355-368 | When the kernel doubts an address it is forgotten and probed for. |
| `Arpd.ExactIffUpTo255` | iproute2-3.1.0/misc/arpd.c:376-391 | The count can be trusted on every run if and only if there are at most 255 active probes. |
| `Arpd.CountWraps` | iproute2-3.1.0/misc/arpd.c:379-391 | Above that it wraps, and no question is suppressed. |
| `Arpd.NegEntryShows` | iproute2-3.1.0/misc/arpd.c:287-295 | A new negative entry reads back as negative, with count zero and the stamp it was given. |
| `Arpd.FourBytes` | iproute2-3.1.0/misc/arpd.c:56 | The stamp of an entry is read with its highest byte first. |
| `Arpd.ValidBefore` | iproute2-3.1.0/misc/arpd.c:55-59 | An entry that is valid now was valid at every time since it was made. |
| `Arpd.OthersUntouched` | iproute2-3.1.0/misc/arpd.c:341-423 | An event for one key leaves the entries of all others alone. |
| `Arpd.ConcernsExactly` | iproute2-3.1.0/misc/arpd.c:318-338 | The kernel messages that are looked at, and the key each is about. |
| `Arpd.Daemon.DoOneRequest` | iproute2-3.1.0/misc/arpd.c:298-423 | The database, the answer and the probe after a kernel message. |
| `Arpd.Daemon.Answer` | iproute2-3.1.0/misc/arpd.c:350-392 | The part for a question: answer, silence or probe, with the count kept in the entry. |
| `Arpd.Daemon.GetArpPkt` | iproute2-3.1.0/misc/arpd.c:478-531 | The database after an ARP packet, sanity checks included. |
| `Arpd.ProbeTeaches` | iproute2-3.1.0/misc/arpd.c:209-236 | The request that the daemon sends as a probe passes the checks on received packets and teaches exactly its sender's address, and nothing if the sender has no address yet. |
| `Nstat.MatchedIffSameOrder` | iproute2-3.1.0/misc/nstat.c:332-363 | One pass matches every common name with its own reading if and only if both lists have the common names in the same relative order. |
| `Nstat.UpdateExact` | iproute2-3.1.0/misc/nstat.c:332-363 | With the order kept, an entry with a reading is advanced by it and one without is left alone. |
| `Nstat.TotalsAreTrue` | iproute2-3.1.0/misc/nstat.c:335-340 | After any number of updates each total has grown by what its counter really counted, however often the counter word wrapped. |
| `Nstat.MergeIsMatching` | iproute2-3.1.0/misc/nstat.c:332-363 | The merged list applies to each entry the reading it is matched with. |
| `Nstat.MatchingRises` | iproute2-3.1.0/misc/nstat.c:352-361 | A match is with a reading of the same name, and matches only move forward. |
| `Nstat.Counters.UpdateDb` | iproute2-3.1.0/misc/nstat.c:318-365 | The nested loops over both lists carry out exactly this merge. |
| `Words.IncreaseIsTrue` | iproute2-3.1.0/misc/nstat.c:337 | The difference of two words less than one word apart is the true increase. |
| `FlowOps.FoldedActs` | iproute2-3.1.0/tc/f_flow.c:166-186 | For any list of and/or/xor options the pair satisfies (v & mask) ^ xor = the options applied in order, for every v. |
| `FlowOps.FoldActs` | iproute2-3.1.0/tc/f_flow.c:92-96 | Folding in one more option composes it with what the pair did. |
| `FlowOps.ParseOps` | iproute2-3.1.0/tc/f_flow.c:139-186 | The option loop computes that pair. |
| `FlowOps.PrintParse` | iproute2-3.1.0/tc/f_flow.c:309-326 | Parsing the and/xor/or form that is printed for a pair gives the same pair back. |
| `FlowOps.OptionsSurvive` | iproute2-3.1.0/tc/f_flow.c:255-326 | Options stored, loaded, printed and parsed again act on every value as before. |
| `FlowOps.SameActionSamePair` | iproute2-3.1.0/tc/f_flow.c:92-96 | Two option lists are stored as the same pair if and only if they act alike; agreeing on two values is enough. |

## Left out

- SsFilter.BytecodeAgrees: requires that the code of every part of a tree is at most 127 bytes, because the source keeps the length in a `char`, and that the jumps of a chain fit 16 bits; what a longer part compiles to is not modelled.
- Unix, packet and netlink sockets in filters (fnmatch patterns), and the kernel's own bytecode interpreter, which is taken to test hosts as `inet2_addr_match` does.
- MakeTable.BuildTable: requires a positive deviation, because the source divides by it; with all samples equal it would be zero. Reading samples and their statistics are not part of this model.
- MakeTable.InvertTable: gives the array the slot that the source writes one past its end.
- Netlink.Message.AddattrNestEnd: after a refused opening requires two bytes behind the message, because the source writes there without a test.
- Netlink.Message.BuildAll: requires that lengths and types fit their 16-bit fields and that the attributes fit the buffer; the length of the message is kept beside the buffer and not in its header.
- NlFlush.FlushBuffer.Take: requires that the message fits the buffer, because the source copies an accepted message without a test.
- NlFlush.FlushRound: requires the same of the messages that its filters accept, and of no others; repeating rounds until nothing is flushed, and the time limit, are not modelled.
- Sending and receiving, error messages and other printing, parsing of arguments and addresses, files, /proc, sockets and ioctls.
- The filters of routes and addresses other than `root`, `match` and `exact`: one predicate stands for all of them.
- InetPrefix.SelectorIsContainment: is about prefixes of a given length; a match prefix of negative length, which accepts every route of its family, is in the selector function only.
- The source-address pair of route selectors, which runs the same tests as the destination pair.
- RbfQueue.ArrivalsAccounted: counters are unbounded integers, so it does not model their 32-bit wrap-around.
- The display records written with each sample, the jacobian and what it makes of the PID gains (the gains are a parameter of the control step), timers, threads, locking and module registration.
- The `exp` implementation of include/exp.h, and include/pso.h, which the discipline does not include.
- Rounding of `double` arithmetic.
- The inputs and the target of the network, which are built from the history, and the widths and centres of its units: the network is a parameter of the training.
- Fields of messages in the byte order of a big-endian host.
- LlMap.LlMap.RememberIndex: keeps names as strings, so it does not model names longer than their field; `ll_idx_n2a` and the name lookup with its memo are left out.
- Arpd.AnswersLastLearnt: what a comparison reads past the end of an address shorter than the one stored is not modelled (it counts as different), and the database starts empty.
- Arpd.CountsProbes: is about entries younger than 2^32 seconds, the span of the stamp.
- The rate limiter of arpd's probes (a parameter says whether a probe goes out), its statistics and its poll loop.
- Rates in nstat, and the formats of /proc files.
- The other options of the flow classifier, and numbers as text.
- The caches of lib/rt_names.c and the IPX parser.
