# Verification of the EtherCAT master and the arm and hand kinematics

This project models the hard parts of the repository in Dafny and proves what they are for: the SOEM EtherCAT master in `soem_lib`, the
trajectory execution of the right arm in `src/franka_right_arm.cpp`, and the forward kinematics of the hand in `src/fk_solver.cpp`.
`dafny verify dfyconfig.toml` checks all of it.

Code that changes state in place is modelled by methods over arrays and classes with the same fields; each such method is proved equal to a
function of the old state, and the theorems are about these functions. Messages are byte strings with the field offsets, masks and 16-bit
wraps of the code. Where a claim of the code or its comments is false, the exact condition under which it holds is proved instead, usually
with a concrete counterexample.

| modules | what they model |
|---|---|
| `Topology` | recovering the tree of slaves from the link counts of a flat list |
| `DistributedClocks`, `ClockChain` | clock setup: entry ports, port consumption, delay measurement, the chain of clock slaves |
| `Travel`, `PropagationDelay`, `DelayConditions`, `DelayExamples` | how a frame travels a tree, what the clock setup makes of any tree, when that is exact, and two networks for which it is not |
| `Mapping`, `MappingTheorems` | FMMU allocation from sync managers, for bit- and byte-oriented slaves |
| `Packing`, `ImageLayout`, `ImageTheorems`, `MappedRanges` | the process image of a group, its segment table, and the FMMUs that cover it |
| `CyclicExchange`, `ProcessFrame`, `ExchangeTheorems`, `ProcessData`, `LongImages` | sending and receiving the image (LRW, or LRD and LWR, with the clock datagram on the first frame), data and working counter, and images of more than sixteen segments |
| `Nic`, `FrameMatching` | frame buffers, index allocation, and several threads sharing them |
| `Redundancy` | the blocking receive without and with redundancy, and the repair of one broken cable |
| `Bytes`, `Chunks`, `Mailbox` | byte fields, cutting a payload into pieces, mailbox buffers |
| `CoE`, `CoETheorems` | SDO download and upload: expedited, normal, segmented |
| `EoE`, `EoEReceive`, `EoETheorems` | Ethernet frames in fragments |
| `FoE`, `FoERead` | file transfer in numbered packets |
| `Sii`, `SiiParse`, `SiiTheorems` | the EEPROM cache, the section search, the PDO sections |
| `Framing`, `FramingTheorems`, `StateCheck`, `ReadState` | datagrams in frames, many requests in one frame, reading all states |
| `Trajectory`, `TrajectoryTheorems` | accepting and executing a joint trajectory |
| `Rotations`, `Quaternion`, `Kinematics` | rotation matrices, quaternions, finger chains |
| `EtherCat`, `Options` | constants, sums and tilings, optional values |

What the code relies on without checking is a precondition, as a named predicate or in the header of the member concerned: the tree has at
most three branches per slave; sync manager lengths of the type add up to the bytes mapped, and a slave maps fewer than 65536 bits a
direction; a slave fits a frame and the segment table is long enough (`ImageTheorems.Fits`); mailbox lengths cover their headers and stay
inside the mailbox buffer; mailboxes have at least 16 (CoE), 42 (EoE) or 13 (FoE) bytes; the chunk of an EEPROM read stays inside the cache
(`Sii.Cache.Fits`), and EEPROM addresses fit 16 bits; a trajectory with a single waypoint starts at time 0.

In the delay theorems, `Travel.Shows` says what the hardware shows: link counts, active ports and receive times of a frame that travels the
tree, each slave with its own clock offset, both directions of a link equally long. `Travel.Wired` says what the wiring is: the frame meets
the ports of a clock slave in ring order, delays are not negative, and the first link below a clock slave that is not entered through port 0
takes some time, so that its entry port is the earliest.

Both the mapping and the delay theorem give an exact condition without further assumptions, and a plainer one for the usual case: sync
managers in which an empty one behind data of its type lies between its neighbours (`MappingTheorems.EmptyInPlace`; empty ones before the
data may lie anywhere, and `EmptyOutOfPlace` shows why this is needed), and networks in which links below slaves without a clock take time.

Standards: distributed clocks, FMMU and frame formats are those of IEC 61158-4-12; CoE, EoE, FoE and SII those of IEC 61158-6-12.

## Model

| member | source | states |
|---|---|---|
| `Topology.FindParent` | soem_lib/soem/ethercatconfig.c:440-470 | the backward search with its running count, as a loop, answers the parent function and always an earlier slave |
| `Topology.ScanSkipsSubtree` | soem_lib/soem/ethercatconfig.c:449-468 | no slave inside a complete subtree can end the search: passing it lowers the count by exactly one |
| `Topology.SearchFindsParents` | soem_lib/soem/ethercatconfig.c:440-470 | for every slave of every subtree the search answers the true parent, wherever the subtree stands in the list |
| `Topology.ParentsRecovered` | soem_lib/soem/ethercatconfig.c:440-470 | main result: for every tree with at most three branches per slave, the flat list of link counts gives back all parents of the tree |
| `DistributedClocks.ParentPort` | soem_lib/soem/ethercatdc.c:216-244 | the first free port in the order 3, 1, 2, 0 is consumed in the parent and nothing else changes |
| `DistributedClocks.FindEntryPort` | soem_lib/soem/ethercatdc.c:307-350 | the loop over the active ports answers the function that the next lemma and the delay theorems are about |
| `ClockChain.EntryIsEarliest` | soem_lib/soem/ethercatdc.c:307-350 | that is the active port with the earliest time, and among equal ones the first in the order 0, 3, 1, 2 |
| `DistributedClocks.Measure` | soem_lib/soem/ethercatdc.c:363-407 | the in-place measurement of one slave refines the step that the delay theorems are about |
| `DistributedClocks.ConfigDc` | soem_lib/soem/ethercatdc.c:252-431 | the in-place pass over the slave list refines the step-by-step function that the delay and chain theorems are about |
| `ClockChain.SlavesSetUp` | soem_lib/soem/ethercatdc.c:276-431 | for every slave list: clock slaves get their receive times and entry port, the others times 0, and nothing else but links and consumed ports changes for them |
| `ClockChain.DelaysGrow` | soem_lib/soem/ethercatdc.c:374-407 | whatever times were latched, a delay is at least that of the parent, unless the frame seems to return before it left |
| `ClockChain.HalfTruncates` | soem_lib/soem/ethercatdc.c:402-405 | halving drops the odd unit towards zero, for negative differences too |
| `Travel.LatchedFacts` | soem_lib/soem/ethercatdc.c:307-350 | from the receive times of any subtree, the entry port, the free ports and the time of the last return are the true ones |
| `PropagationDelay.DelayIsTravelTime` | soem_lib/soem/ethercatdc.c:374-407 | the delay computed for a slave behind its right port is the true travel time if and only if the frame takes as long from the clock parent to it as back |
| `PropagationDelay.TreePass` | soem_lib/soem/ethercatdc.c:409-425 | passing any subtree, with and without clocks, leaves no slave held, touches nothing outside it, and takes from the clock slave above exactly the ports that `Takes` counts |
| `PropagationDelay.SetupExact` | soem_lib/soem/ethercatdc.c:252-431 | for every tree, all clock offsets and delays, zero included: the setup is exact if and only if every clock slave is served its own port over a link of equal length both ways |
| `DelayConditions.DelaysAreTravelTimes` | soem_lib/soem/ethercatdc.c:252-431 | main result: for every tree of slaves with and without clocks, every delay is the true travel time and every parent port the true one if and only if every clock slave is served its own port over a link of equal length both ways; where links below slaves without a clock take time, if and only if one clock slave is reached first and, at every clock slave, each branch holds at most one clock slave to be reached first, equally far both ways, and finds its own port next in turn |
| `DelayConditions.ClockTreesExact` | soem_lib/soem/ethercatdc.c:252-431 | main result: when every slave has a clock, that is so if and only if at every slave the frame visits the branches in the order 3, 1, 2, 0 |
| `DelayConditions.OrdersAgree` | soem_lib/soem/ethercatdc.c:216-244 | that is always so for a slave entered through port 0 or port 3 |
| `DelayConditions.BranchTakes` | soem_lib/soem/ethercatdc.c:409-425 | a branch without clock slaves uses up a port of the clock slave above if and only if it is unbranched; one with a clock slave uses up one |
| `DelayConditions.InTurnIff` | soem_lib/soem/ethercatdc.c:409-425 | where the two orders agree, each branch with a clock slave finds its own port if and only if every branch without clocks is unbranched or has no branch with a clock after it |
| `Travel.SearchedParents` | soem_lib/soem/ethercatconfig.c:440-470 | the parents this relies on are the ones the parent search computes from the same wiring |
| `DelayExamples.WrongOrderWrongDelay` | soem_lib/soem/ethercatdc.c:216-244 | a slave entered through port 1 with two branches, for which the first is given delay 20 instead of 10 |
| `DelayExamples.SideBranchWrongDelay` | soem_lib/soem/ethercatdc.c:420-425 | a forked branch without clocks before a clock slave, which is then taken to be on port 3 at delay 30 instead of on port 1 at 70 |
| `ClockChain.ClockSlavesChained` | soem_lib/soem/ethercatdc.c:279-294 | for every slave list, next and previous links of the clock slaves agree and no other next link is touched; in a list without old links, following them from the master visits exactly the clock slaves, in order |
| `Mapping.SearchSm` | soem_lib/soem/ethercatconfig.c:925-928 | the search stops at the first sync manager of the type, or at the last one |
| `Mapping.JoinSms` | soem_lib/soem/ethercatconfig.c:935-953 | the inner loop joins exactly the adjoining sync managers of the type, up to the bytes needed |
| `Mapping.PlaceBits` | soem_lib/soem/ethercatconfig.c:958-974 | an FMMU for fewer than eight bits names its first and last bit, and the cursor moves by exactly these bits |
| `Mapping.CreateMappings` | soem_lib/soem/ethercatconfig.c:896-1038 | the mapping loop ends, and leaves the FMMUs and the cursor that the layout theorems are about, for both kinds of slaves (input form) |
| `Mapping.MapBytes` | soem_lib/soem/ethercatconfig.c:1060-1171 | the same loop for byte-oriented slaves, as the output form has it |
| `MappingTheorems.FmmusCoverRange` | soem_lib/soem/ethercatconfig.c:955-996 | the FMMUs of a slave tile exactly its logical range: whole bytes from a byte boundary on, or exactly its bits |
| `MappingTheorems.BitsMapped` | soem_lib/soem/ethercatconfig.c:925-975 | a slave with one to seven bits has a single FMMU, from the start of the first sync manager of the type, for exactly its bits at the cursor |
| `MappingTheorems.OneFmmu` | soem_lib/soem/ethercatconfig.c:935-953 | sync managers of the type of which none leaves a gap are mapped by a single FMMU from the start of the first one |
| `MappingTheorems.JoinsUntilGap` | soem_lib/soem/ethercatconfig.c:935-953 | joining stops short of the bytes needed exactly at a sync manager that starts behind the end of its neighbour |
| `MappingTheorems.MappedInOrder` | soem_lib/soem/ethercatconfig.c:896-1038 | main result: for sync managers at any addresses, logical byte k is mapped to byte k of the concatenated sync managers, for all k, if and only if in each round of the walk the sync managers that hold the bytes of its FMMU, which is as long as all bytes counted so far, follow one another from the first one of the round; with empty sync managers in place, if and only if the data needs at most two runs, empty ones in front not counted, and every sync manager joined to a run starts exactly where the one before it ends |
| `MappingTheorems.DescendingMisplaced` | soem_lib/soem/ethercatconfig.c:942-952 | two sync managers at descending addresses, the second of which is mapped to where there is none |
| `MappingTheorems.EmptyOutOfPlace` | soem_lib/soem/ethercatconfig.c:942-952 | an empty sync manager that steps back, and three runs that are mapped in order by coincidence |
| `Packing.AllBytesHeld` | soem_lib/soem/ethercatconfig.c:1223-1237 | the segment table accounts for all bytes if and only if the segments needed fit its 64 entries |
| `Packing.SegmentsFit` | soem_lib/soem/ethercatconfig.c:1223-1237 | every segment stays within the limit that leaves room for the clock datagram |
| `Packing.BlockWhole` | soem_lib/soem/ethercatconfig.c:1223-1237 | a block of bytes recorded at once never ends up in two segments |
| `ImageLayout.PackBlock` | soem_lib/soem/ethercatconfig.c:1223-1237 | the in-place segment table refines the packer |
| `ImageLayout.MapSlave` | soem_lib/soem/ethercatconfig.c:1205-1237 | one slave: its fields, its place in the image, the cursor, the segments and the counter |
| `ImageLayout.Flush` | soem_lib/soem/ethercatconfig.c:1241-1259 | left-over bits of a direction fill up their byte, which is recorded too |
| `ImageLayout.MapGroup` | soem_lib/soem/ethercatconfig.c:1178-1368 | the whole in-place mapping of a group leaves the slave list and the group record that the layout theorems are about, and counts the slaves that block LRW and the E-bus current |
| `ImageLayout.TallyCounts` | soem_lib/soem/ethercatconfig.c:1322-1326 | the counter of slaves that block LRW is the number of such members, and positive exactly if there is one; the E-bus current is the sum over the members |
| `ImageTheorems.RangesInOrder` | soem_lib/soem/ethercatconfig.c:1196-1359 | over any list of slaves the logical bit ranges have the sizes asked for, are pairwise disjoint and in slave order, all outputs before all inputs |
| `ImageTheorems.LayoutPacked` | soem_lib/soem/ethercatconfig.c:1196-1359 | no bit is wasted: outputs start with the group, inputs at the byte behind them, and each range follows the one before it directly, or at the next byte if it has eight bits or more or all are aligned |
| `ImageTheorems.SegmentsHoldImage` | soem_lib/soem/ethercatconfig.c:1223-1259 | the segments add up to the image if and only if the table is long enough; then each fits a frame with a clock datagram |
| `ImageTheorems.InputsStart` | soem_lib/soem/ethercatconfig.c:1261-1264 | Isegment and Ioffset name the byte right after the outputs |
| `ImageTheorems.AlignedNeverStraddles` | soem_lib/soem/ethercatconfig.c:1213-1221 | with byte alignment no range shares a byte with two bytes of the image |
| `ImageTheorems.SlaveUndivided` | soem_lib/soem/ethercatconfig.c:1223-1237 | main result: a slave is divided between two segments if and only if its bits cross a byte boundary at which a segment ends |
| `ImageTheorems.StraddlerDivided` | soem_lib/soem/ethercatconfig.c:1223-1237 | without alignment, a concrete network in which such a slave is divided |
| `MappedRanges.FmmusCoverLayout` | soem_lib/soem/ethercatconfig.c:896-1176 | main result: the FMMUs added to the slave list by the mapping of a group cover exactly the ranges of its layout, slave by slave, in both directions |
| `MappedRanges.SlavesFindTheirData` | soem_lib/soem/ethercatconfig.c:1010-1027 | main result: after the mapping of a group, offset and start bit of every member name the first bit of its own output span and its own input span in the image; a direction without bits, and a slave outside the group, has none |
| `MappedRanges.SlaveServed` | soem_lib/soem/ethercatconfig.c:896-1176 | main result: every member keeps its FMMUs and gains those that map its own output span to sync managers of type 3 and its own input span to type 4, bits to the start of the first one, bytes in order exactly if the table allows it |
| `CyclicExchange.Master.PushIndex` | soem_lib/soem/ethercatmain.c:1652-1661 | the seventeenth and later frames are dropped from the stack |
| `CyclicExchange.PiecesTile` | soem_lib/soem/ethercatmain.c:1740-1870 | the pieces of LRW, LRD and LWR add up to exactly the bytes each is for |
| `CyclicExchange.Master.SendProcessData` | soem_lib/soem/ethercatmain.c:1705-1875 | the three sending loops send exactly the pieces of the chosen path, with the clock datagram on the first frame only, and stack the first sixteen |
| `ExchangeTheorems.AllTakenBack` | soem_lib/soem/ethercatmain.c:1652-1661 | all frames of an exchange can be taken back if and only if there are no more than sixteen |
| `ProcessFrame.BuildFrame` | soem_lib/soem/ethercatmain.c:1842-1861 | the frame of a piece and its clock datagram in bytes: it fits the transmit buffer, is flagged as it must be, and the noted offset is that of the clock data |
| `CyclicExchange.Master.ReceiveProcessData` | soem_lib/soem/ethercatmain.c:1920-1996 | receiving in stack order leaves the image, the counter and the clock that the exchange theorems are about, and an empty stack |
| `ProcessFrame.ReplyFound` | soem_lib/soem/ethercatmain.c:1944-1980 | main result: from the bytes of any frame that went round, the receiver takes the data and counter of the process-data datagram, the counter of the last datagram, and the time in the clock datagram |
| `ExchangeTheorems.ReadWriteExchange` | soem_lib/soem/ethercatmain.c:1652-1996 | LRW path, any number of frames, whatever frames are lost: image byte k is what the slaves made of it if its frame came back and is one of the first sixteen, else unchanged; the counter is the sum over these frames; the clock is taken over if the group has one and the first frame came back |
| `ExchangeTheorems.SplitExchange` | soem_lib/soem/ethercatmain.c:1652-1996 | the same for the LRD and LWR path, whose writes come after the reads on the stack; output bytes are never changed; without inputs the clock comes with the first LWR frame |
| `ExchangeTheorems.OutputsReachSlaves` | soem_lib/soem/ethercatmain.c:1740-1870 | every output byte is written to its logical address on either path, and the split path writes nothing else |
| `ExchangeTheorems.CountedOnce` | soem_lib/soem/ethercatmain.c:1944-1980 | the sum of the counters counts every slave exactly once if and only if no slave is divided between frames |
| `ExchangeTheorems.ReadWriteCounter` | soem_lib/soem/ethercatmain.c:1944-1980 | LRW path, all frames taken back: the summed counter is the expected one if and only if no slave is divided between frames |
| `ExchangeTheorems.SplitCounter` | soem_lib/soem/ethercatmain.c:1944-1980 | the same for the LRD and LWR path |
| `ProcessData.CycleImage` | soem_lib/soem/ethercatmain.c:1652-1996 | one send and receive without loss, any number of frames: the image bytes that are read back are exactly those up to the end of the sixteenth piece; each is a function of its logical address and the byte sent, all others stay |
| `ProcessData.CycleClock` | soem_lib/soem/ethercatmain.c:1949-1973 | a cycle without loss leaves the clock that the first frame brought, on either path, and the old one in a group without clocks |
| `ProcessData.SegmentsDoNotMatter` | soem_lib/soem/ethercatmain.c:1652-1996 | main result: a segmented cycle leaves the image, for all slaves and images, as one unsegmented exchange would if and only if the frames past the sixteenth bring no image bytes back; the slaves get the same outputs in any case |
| `LongImages.LaidAllRead` | soem_lib/soem/ethercatconfig.c:1178-1368 | main result: after any mapping that is so if and only if the segment table has at most sixteen entries (LRW), or the inputs start at most sixteen segments before its end or there are none (LRD and LWR) |
| `LongImages.SeventeenSegments` | soem_lib/soem/ethercatmain.c:1652-1661 | 17 to 64 slaves of 1466 input bytes: although all answer and every frame comes back, the bytes of the seventeenth are never updated, and the counter is not the expected one |
| `ProcessData.PathsAgree` | soem_lib/soem/ethercatmain.c:1740-1870 | main result: both paths bring back the same input bits, for all slaves and images, if and only if they read the inputs back equally far; both keep the outputs |
| `ProcessData.LaidIsValid` | soem_lib/soem/ethercatconfig.c:1178-1368 | the group record of every mapping meets what the exchange relies on |
| `ProcessData.ExpectedCounterReached` | src/Ethercat_setting.cpp:442 | main result: after any mapping, up to sixteen frames with no loss give the counter 2 * outputsWKC + inputsWKC on either path, the assigned counter of the clock frame included, if and only if no range is packed bitwise across the end of a segment |
| `ProcessData.CounterDetects` | src/Ethercat_setting.cpp:442 | main result: with no such range and any number of frames, the counter is that value if and only if every mapped slave answers in every direction and no range reaches beyond the frames taken back |
| `ProcessData.AlignedCounterReached` | src/Ethercat_setting.cpp:442 | with byte alignment, up to sixteen frames give that value if and only if every mapped slave answers |
| `ProcessData.MappedSlavesMapLayout` | soem_lib/soem/ethercatconfig.c:896-1176 | slaves that answer where the FMMUs of the mapped list say are those the counter theorem speaks of |
| `Nic.Stack.InFrame` | soem_lib/oshw/linux/nicdrv.c:373-453 | the non-blocking receive takes the stored frame, its own, or stores one for another index with a request out; result and all buffers |
| `Nic.Stack.FindIndex` | soem_lib/oshw/linux/nicdrv.c:225-246 | the allocation loop answers the search that the two lemmas below are about |
| `Nic.BusyOnlyWhenFull` | soem_lib/oshw/linux/nicdrv.c:225-246 | an index that is handed out is empty if and only if some index is |
| `Nic.SkipsOnlyBusy` | soem_lib/oshw/linux/nicdrv.c:225-246 | it is the first empty one in cyclic order |
| `FrameMatching.InvStep` | soem_lib/oshw/linux/nicdrv.c:218-453 | every atomic step of any thread keeps: an index is free exactly if unowned, and requests belong to the owner |
| `FrameMatching.MatchedStep` | soem_lib/oshw/linux/nicdrv.c:373-453 | every step that does not send with an index while older answers to it are in flight keeps: stored answers and answers on the wire are to the last frame sent with it |
| `FrameMatching.WaiterSeesItsAnswer` | soem_lib/oshw/linux/nicdrv.c:373-453 | main result: in every interleaving that does not reuse this index while an older answer to it is in flight, whatever is done with the others, a waiter that gets a counter finds the answer to the frame it sent last |
| `FrameMatching.IndexHandedOutIsFree` | soem_lib/oshw/linux/nicdrv.c:218-248 | in every interleaving with at most 16 requests an allocated index is nobody else's |
| `FrameMatching.ArrivalStored` | soem_lib/oshw/linux/nicdrv.c:416-446 | an arrival for an index with a request out is stored, whoever reads it |
| `FrameMatching.SentCanBeAnswered` | soem_lib/oshw/linux/nicdrv.c:273-453 | a request that is sent has its answer on the wire, and its holder can take it |
| `FrameMatching.StoredKept` | soem_lib/oshw/linux/nicdrv.c:416-446 | and stays stored through any number of steps of other threads |
| `FrameMatching.ForeignAnswerIffStale` | soem_lib/oshw/linux/nicdrv.c:416-446 | a foreign answer can be returned if and only if one to an earlier use of the index is still in flight |
| `FrameMatching.FailedSendSharesIndex` | soem_lib/oshw/linux/nicdrv.c:283-291 | after a failed send the index counts as empty while it is still held, and is the next one handed out if and only if no empty one comes before it in cyclic order |
| `Redundancy.Port.GetIndex` | soem_lib/oshw/linux/nicdrv.c:218-248 | the index is reserved on both sockets |
| `Redundancy.Port.WaitInFrameRed` | soem_lib/oshw/linux/nicdrv.c:467-541 | the two waiting loops and the decision by route, as methods over the buffers, refine the function the next two theorems are about |
| `Redundancy.PlainWait` | soem_lib/oshw/linux/nicdrv.c:473-495 | main result, without redundancy: among any other frames the wait takes the frame of its index, contents and counter; if there is none the buffer stays, and the last poll decides between no frame and another one; secondary side and transmit buffers are left alone |
| `Redundancy.PlainLine` | soem_lib/oshw/linux/nicdrv.c:473-540 | so on a whole line the caller gets the frame processed by all slaves in order, and its counter |
| `Redundancy.StoredFrameTaken` | soem_lib/oshw/linux/nicdrv.c:393-401 | a frame that another wait has stored is taken, with its counter, without reading the socket |
| `Redundancy.RouteDecides` | soem_lib/oshw/linux/nicdrv.c:496-540 | with redundancy, whatever the two sockets deliver: which frame counts, when one is sent again and which, by the routes they took |
| `Redundancy.SingleBreakRepaired` | soem_lib/oshw/linux/nicdrv.c:467-541 | main result: for a line of any length and any one broken cable (or none), with frames in any order between others, the primary buffer ends up with the frame processed by all slaves in order, and its counter |
| `Redundancy.LostRepairIsPartial` | soem_lib/oshw/linux/nicdrv.c:499-541 | if the frame sent again is lost, the caller gets the frame of the slaves before the break, with their counter |
| `CoE.ExpeditedFrame` | soem_lib/soem/ethercatcoe.c:347-363 | an expedited download frame, field by field |
| `CoE.InitFrame` | soem_lib/soem/ethercatcoe.c:407-434 | the first frame of a normal download, field by field |
| `CoE.SegmentFrame` | soem_lib/soem/ethercatcoe.c:452-484 | a segment, with the reduced last one and the toggle bit |
| `CoE.WriteSegments` | soem_lib/soem/ethercatcoe.c:446-517 | the segments sent, result and number sent for any answers; success if and only if the last is accepted and none refused |
| `CoE.SDOwrite` | soem_lib/soem/ethercatcoe.c:330-540 | the frames sent are the first ones of the ideal download, result and number sent are stated for any answers; success is reported if and only if the first and last frame are accepted and none is refused in between |
| `CoETheorems.DownloadStops` | soem_lib/soem/ethercatcoe.c:446-517 | main result: a download ends with the first frame that is refused, with result 0; otherwise all frames are sent and the last exchange gives the result |
| `CoETheorems.AcksMean` | soem_lib/soem/ethercatcoe.c:373-377 | the acknowledgements accepted, in the fields of the mailbox |
| `CoE.SDOread` | soem_lib/soem/ethercatcoe.c:120-313 | the in-place upload into the buffer, with its size and result, for any answers, and the commands sent with their toggles |
| `CoETheorems.UploadSucceeds` | soem_lib/soem/ethercatcoe.c:160-313 | main result: an upload succeeds if and only if the first answer is a response for the index, what it announces fits the buffer, and, where segments are needed, the last one comes before any other answer; what the buffer then holds; otherwise result 0 and an unchanged size |
| `CoETheorems.CollectMeans` | soem_lib/soem/ethercatcoe.c:227-286 | a segmented upload collects exactly the contents of the segments, up to the last one |
| `CoETheorems.FramesFit` | soem_lib/soem/ethercatcoe.c:346-484 | every frame of a download lies inside the mailbox, for every mailbox size from 16 on |
| `CoETheorems.FramesFull` | soem_lib/soem/ethercatcoe.c:400-484 | every frame but the last fills the mailbox |
| `CoETheorems.FirstFrameMeans` | soem_lib/soem/ethercatcoe.c:356-440 | the first frame of a download in the fields of the mailbox, with its object, command, unused bytes or whole size |
| `CoETheorems.TogglesAlternate` | soem_lib/soem/ethercatcoe.c:474-515 | the toggle bit of the k-th segment is the parity of k |
| `CoETheorems.UploadReturnsDownload` | soem_lib/soem/ethercatcoe.c:177-286 | main result: for every payload, mailbox and buffer, the upload rules get back exactly the payload from the frames of a download, if and only if the buffer holds it and it is not an empty single subindex |
| `CoETheorems.SuccessMeansDelivered` | soem_lib/soem/ethercatcoe.c:446-517 | reported success means that every frame reached the slave, whatever happens at each exchange, if and only if at most two frames are needed: a lost segment in the middle goes unnoticed |
| `EoE.Sender.Send` | soem_lib/soem/ethercateoe.c:316-391 | the fragments sent, their offsets and flags, the frame number; sending ends with the first write that fails, and the last write made gives the result |
| `EoETheorems.FragmentsFit` | soem_lib/soem/ethercateoe.c:338-388 | every fragment lies inside the mailbox and all but the last hold as many whole blocks of 32 bytes as fit |
| `EoEReceive.Assembler.ReadFragment` | soem_lib/soem/ethercateoe.c:528-634 | one mailbox: return code, working variables, reported size and buffer, for any mailbox and state |
| `EoEReceive.Recv` | soem_lib/soem/ethercateoe.c:408-512 | the blocking receive refines the function that the round trip is about, for any arrivals |
| `EoETheorems.Resynchronises` | soem_lib/soem/ethercateoe.c:528-634 | main result: from any state of the assembler the fragments of one frame return 0, ..., 0, 1 and the payload, if and only if it has at most 2016 bytes and fits the buffer |
| `EoETheorems.AnyMailbox` | soem_lib/soem/ethercateoe.c:600-628 | any mailbox, malformed or not: nothing is written beyond the frame or the buffer, and a frame's size is reported right if and only if it is not shorter than its time stamp |
| `EoETheorems.FragmentErrors` | soem_lib/soem/ethercateoe.c:553-596 | every error code, and when the working variables are cleared so that only a first fragment is taken next |
| `EoETheorems.TooBig` | soem_lib/soem/ethercateoe.c:602-628 | a fragment that does not fit the frame or the buffer is not stored |
| `EoETheorems.RecvEnds` | soem_lib/soem/ethercateoe.c:429-512 | main result: the first arrival that is not an expected fragment, or is the last, ends the blocking receive: error code with the size unchanged, or the size of all fragments less a time stamp |
| `EoETheorems.KeptMeans` | soem_lib/soem/ethercateoe.c:481-488 | a fragment is kept behind those before it if it fits the buffer; if not, nothing changes |
| `EoETheorems.ReceiveReturnsSend` | soem_lib/soem/ethercateoe.c:429-510 | main result: receiving what was sent gives the payload, if and only if the port has four bits, the buffer holds payload and announced size, and no fragment starts at or after byte 2048 |
| `FoE.Writer.Next` | soem_lib/soem/ethercatfoe.c:250-304 | one packet is sent if and only if the file is not ended: the next piece under the next number; data pointer, rest and flag stay in step |
| `FoE.Writer.Rewind` | soem_lib/soem/ethercatfoe.c:306-321 | after a busy answer the writer is where it was before the last packet: the same piece is due again under the same number, the zero-size packet included |
| `FoE.FOEwrite` | soem_lib/soem/ethercatfoe.c:199-353 | the packets sent are the first ones of the file, in order; result and number sent for any answers; the result is positive if and only if all were acknowledged or a busy answer ended the transfer |
| `FoE.WriteStops` | soem_lib/soem/ethercatfoe.c:246-345 | main result: the exchange after the packets acknowledged one by one decides, with its error code, in the fields of the mailbox |
| `FoERead.FOEread` | soem_lib/soem/ethercatfoe.c:71-186 | the in-place read with its size, result and acknowledgements, their number included, for any answers |
| `FoERead.ReadMeans` | soem_lib/soem/ethercatfoe.c:110-182 | main result: the buffer ends up with the data of the packets that came in order; the first answer that is none, does not fit, is short or could not be acknowledged ends the transfer and gives result and size |
| `FoERead.PacketsFit` | soem_lib/soem/ethercatfoe.c:239-305 | packets are numbered from 1, fit the mailbox, and exactly the last is shorter than a full one |
| `FoERead.ReadReturnsWrite` | soem_lib/soem/ethercatfoe.c:110-182 | main result: with equal mailboxes, reading what was written gives the file, for every size (none and exact multiples included), if and only if it fits the buffer |
| `Sii.Cache.GetByte` | soem_lib/soem/ethercatmain.c:333-396 | the byte returned is the one a direct read gives, and afterwards every set bit means a byte of the current slave, over any sequence of reads across slaves of both widths |
| `Sii.Cache.MarkRead` | soem_lib/soem/ethercatmain.c:383-393 | the marking loop sets exactly the bits of the chunk, also across a word of the bitmap |
| `SiiParse.Find` | soem_lib/soem/ethercatmain.c:404-436 | on every well-formed image, of any size, the search loop ends at the section the next lemmas are about |
| `SiiTheorems.FindsFirst` | soem_lib/soem/ethercatmain.c:404-436 | that address is the length word of the first section of the category, and 0 if and only if there is none |
| `SiiTheorems.FoundIfInReach` | soem_lib/soem/ethercatmain.c:404-436 | main result: for an image of any size that is what the search returns if and only if the header of the section lies in the first 4096 bytes, or there is none; else it returns 0 |
| `SiiParse.SiiPdo` | soem_lib/soem/ethercatmain.c:613-678 | the table filled in place, and the size, for whatever the section holds |
| `SiiTheorems.SectionRead` | soem_lib/soem/ethercatmain.c:632-671 | main result: from a section that holds a list of PDOs and ends inside the buffer exactly these are read, if and only if the list is not empty |
| `SiiTheorems.TotalIsSmSum` | soem_lib/soem/ethercatmain.c:654-661 | every mapped bit belongs to exactly one sync manager |
| `SiiTheorems.SizeIsActiveBits` | soem_lib/soem/ethercatmain.c:613-678 | the size returned is the number of bits of the active entries if and only if that fits 16 bits; then it is also the sum of the sizes by sync manager |
| `Framing.TxBuffer.SetupDatagram` | soem_lib/soem/ethercatbase.c:68-91 | the buffer holds a frame of exactly this datagram |
| `Framing.TxBuffer.AddDatagram` | soem_lib/soem/ethercatbase.c:106-146 | the frame gains the datagram at its end and the flag in its first one, the length word counts it, and the offset returned is that of its data |
| `FramingTheorems.ParsesBack` | soem_lib/soem/ethercatbase.c:106-146 | following the flags gives back the datagrams if and only if every one but the last is flagged |
| `FramingTheorems.AddsParseBack` | soem_lib/soem/ethercatbase.c:106-146 | main result: a setup and any adds parse back if and only if exactly the last add is told that nothing follows |
| `FramingTheorems.LengthFindsCounter` | soem_lib/oshw/linux/nicdrv.c:396-398 | the length word of a received frame points at the working counter of its last datagram |
| `FramingTheorems.OffsetFindsData` | soem_lib/soem/ethercatbase.c:143-145 | the offset of a datagram points at its data in the received frame |
| `FramingTheorems.SameOffsets` | soem_lib/soem/ethercatbase.c:143-145 | the answer has its data where the request had it |
| `FramingTheorems.PayloadMeans` | soem_lib/soem/ethercatbase.c:32-53 | commands that only read are sent with zeros, all others with the data |
| `StateCheck.BuildMulti` | soem_lib/soem/ethercatmain.c:691-706 | for up to 64 slaves the frame fits its buffer, asks them in order, is flagged as a complete frame must be, and the offsets are noted |
| `StateCheck.FprdMulti` | soem_lib/soem/ethercatmain.c:682-716 | every slave of the list gets its own answer, or keeps what was there if the frame is lost |
| `ReadState.Master.ReadState` | soem_lib/soem/ethercatmain.c:723-824 | fast path or groups: the states, codes and lowest state written, and that the groups cover every slave exactly once, 64 at most at a time |
| `ReadState.EnoughMeans` | soem_lib/soem/ethercatmain.c:738-779 | when the broadcast is enough: all answered, no error, exactly one state bit set |
| `ReadState.StateNumbers` | soem_lib/soem/ethercatmain.c:755-765 | the numbers of the four states |
| `ReadState.CodesGathered` | soem_lib/soem/ethercatmain.c:791-822 | the status code of the network has exactly the bits of the slaves whose frames came back |
| `ReadState.BroadcastAgrees` | soem_lib/soem/ethercatmain.c:732-787 | main result: when all slaves answer and one broadcast is enough, it gives the state of every slave and the lowest one, if and only if no slave reports state 0 |
| `Trajectory.ValidateWaypoint` | src/franka_right_arm.cpp:89-104 | a waypoint is accepted if and only if all joints are finite and inside the limits |
| `Trajectory.Load` | src/franka_right_arm.cpp:130-161 | a buffer is taken over if and only if all waypoints and times are acceptable, and then unchanged |
| `Trajectory.Lerp7` | src/franka_right_arm.cpp:114-120 | interpolation joint by joint |
| `Trajectory.Motion.FindSegment` | src/franka_right_arm.cpp:182-185 | the loop finds the first segment that contains the time |
| `Trajectory.Motion.Tick` | src/franka_right_arm.cpp:170-198 | the commanded position is the one the theorems are about, and when the motion is finished |
| `Trajectory.Execute` | src/franka_right_arm.cpp:124-198 | over all ticks: every command is the position at its time, and the motion ends at the first tick past the settling time |
| `TrajectoryTheorems.StaysInLimits` | src/franka_right_arm.cpp:177-191 | main result: every command for a joint is inside its limits if and only if the first one is, which is waypoint 0 less t0 / (t1 - t0) times the way to waypoint 1, or waypoint 0 for a first gap of at most a nanosecond |
| `TrajectoryTheorems.AllowedAtZero` | src/franka_right_arm.cpp:177-191 | it is when the first waypoint is at time 0 |
| `TrajectoryTheorems.AtWaypoint` | src/franka_right_arm.cpp:177-191 | every waypoint is reached at its time |
| `TrajectoryTheorems.SlopeBound` | src/franka_right_arm.cpp:177-191 | main result: commands at any two times differ by at most a slope times the time between, across any number of segments, if and only if no segment is steeper and the joint has equal ends at every gap of at most a nanosecond |
| `TrajectoryTheorems.NarrowGapJumps` | src/franka_right_arm.cpp:187-188 | over a gap of at most a nanosecond no slope bounds the commands |
| `TrajectoryTheorems.ExtendedBackwards` | src/franka_right_arm.cpp:180-190 | before the first waypoint's time the command leaves the first segment if and only if its ends differ |
| `TrajectoryTheorems.LateStartLeavesLimits` | src/franka_right_arm.cpp:180-190 | an accepted trajectory that starts late and is commanded outside the limits at time 0 |
| `TrajectoryTheorems.WholeMotion` | src/franka_right_arm.cpp:124-198 | main result: over any sequence of ticks of any accepted trajectory, the limits and the slope under these two conditions, and the last waypoint at the end |
| `Rotations.MulProper` | src/fk_solver.cpp:24-36 | products of proper rotations are proper |
| `Rotations.AxisProper` | src/fk_solver.cpp:66-84 | the matrix about any axis, for the cosine and sine of any angle, is a proper rotation if and only if the axis is a unit vector or the cosine is 1; it leaves a unit axis where it is |
| `Rotations.AxisTurns` | src/fk_solver.cpp:66-84 | about any axis the matrix turns every vector right-handed: cosine times it, sine times the cross product, and its part along the axis |
| `Kinematics.JointTurns` | src/fk_solver.cpp:65-84 | main result: a joint turns every point that way by its angle; a quarter turn about Z takes X to Y |
| `Kinematics.RevoluteMoves` | src/fk_solver.cpp:134-140 | a link bends first and is then placed by roll, pitch, yaw and offset |
| `Kinematics.ComposeApplies` | src/fk_solver.cpp:24-36 | composing transforms is applying one after the other |
| `Kinematics.KeepsDistances` | src/fk_solver.cpp:24-36 | a rigid transform keeps all distances |
| `Kinematics.RpyIsProduct` | src/fk_solver.cpp:38-64 | the nine entries are those of yaw, pitch and roll, one after the other |
| `Kinematics.ChainRigid` | src/fk_solver.cpp:147-182 | main result: every chain of links about unit axes is a rigid transform with an orthonormal matrix of determinant 1, from cos² + sin² = 1 alone |
| `Kinematics.ChainMoves` | src/fk_solver.cpp:147-182 | main result: a chain takes every point where its links take it, the last one first, each joint about its own axis by its own angle |
| `Kinematics.ThumbMoves` | src/fk_solver.cpp:147-157 | the thumb, link by link, with its lengths, axes and angles |
| `Kinematics.FingerMoves` | src/fk_solver.cpp:165-177 | the other fingers |
| `Kinematics.SolveThumb` | src/fk_solver.cpp:147-163 | the output arrays hold the tip of the thumb chain, the orientation as a unit quaternion that converts back |
| `Kinematics.SolveFingerCommon` | src/fk_solver.cpp:165-182 | the same for the other fingers |
| `Kinematics.HandFk` | src/fk_solver.cpp:185-198 | all four tips from the sixteen encoder counts, each finger with its own base and counts |
| `Quaternion.PivotAtLeastOne` | src/fk_solver.cpp:94-124 | whichever branch is taken, for any matrix, the root is taken of a number of at least 1 |
| `Quaternion.RawIsUnit` | src/fk_solver.cpp:94-124 | in every branch the components of a proper rotation have norm 1 and convert back to the same matrix |
| `Quaternion.RotmatToQuat` | src/fk_solver.cpp:86-132 | main result: for every matrix a unit quaternion whose component of the branch is positive, and one that converts back for every proper rotation |

## Left out

- Sockets, timers, sleeps and mutexes: arrivals, losses and time-outs are parameters or steps; register access of slaves is abstract.
- The contents of DL status registers, from which link counts and active ports are decoded (soem_lib/soem/ethercatconfig.c:405-437); the delay theorem starts from them.
- DistributedClocks.ConfigDc: times are mathematical integers, without the 32-bit wrap of the receive time registers; halving truncates toward zero as in C.
- Mapping.CreateMappings: FMMU register writes and the limit of four FMMUs are not modelled; the slots after those in use are clear, so that the search for a free one ends at once; the input and output form share one model with the type of sync manager as parameter.
- ImageLayout.MapGroup: mailbox status FMMUs, state requests and PDI setup are left out; the loops over outputs and inputs share one model with the direction as parameter.
- ecx_config_overlap_map_group, SoE, EoE IP setup, EEPROM write, recovery and reconfiguration.
- CyclicExchange.Master.ReceiveProcessData: a reply is what `ProcessFrame.ReplyIn` finds in the received bytes; the driver that hands over the frame is modelled in `Nic`.
- ExchangeTheorems.ReadWriteExchange: the reply to a stack entry is the answer to its own frame, as in `SplitExchange`; past sixteen frames the driver reuses frame indices, so that this needs answers that come in order and none lost, and the answers to the later frames stay unread.
- ProcessData.CounterDetects: a torn range counts more than once and can make up for a slave that does not answer, so none is torn here.
- FrameMatching.WaiterSeesItsAnswer: callers hold at most 16 indices and wait only for what they sent; `ForeignAnswerIffStale` and `FailedSendSharesIndex` show what happens otherwise.
- Redundancy.SingleBreakRepaired: frames that can return do so before the time-out; two broken cables are not modelled.
- The mailbox counter (bits 4 to 7 of the type byte) and the error ring: the receivers ignore the former, the latter only reports.
- CoE.SDOread: announced segment totals are not checked against the buffer by the code, so they are a precondition; the code keeps asking a silent slave without end, and the model stops with the list of answers; of the requests the commands are modelled.
- CoE.SDOwrite: payloads below 2 GiB.
- FoE.FOEwrite, FoERead.FOEread: file name, password and progress hook are left out.
- Sii.Cache.GetByte: EEPROM reads succeed; handing the EEPROM to the master and back is left out.
- SiiParse.SiiPdo: a PDO section whose reads would leave the buffer, or whose addresses would wrap at 16 bits, is outside the statement.
- ReadState.Master.ReadState: a state register is its five defined bits, a status code the set of its bits.
- Trajectory.Execute: the robot library calls the callback; shared memory states and their hand-off between processes are left out, and printing.
- Real numbers stand for doubles in `Trajectory`, `Rotations`, `Quaternion` and `Kinematics`: no rounding, no conversion to float; cosine, sine and square root enter by their defining laws.
- Kinematics: loops over the three rows of a matrix are written out.
- Big-endian hosts.
