# Verified model of the SOEM EtherCAT master and the rover's setpoint planner

SOEM is an EtherCAT master: it finds the slaves on a line of cables, works out how they are wired and how long a
frame takes to each of them, lays their process data out in one image, exchanges that image cyclically in datagrams
whose answers may arrive in any order and over a broken ring, and runs the mailbox protocols (CoE, EoE, FoE) beside
it. The rover's own code on top generates position setpoints. This project models these algorithms in Dafny and
proves what they are for. Where the code works step by step on shared state, so does the model: loops, arrays and
classes, each method proved against a function, and the theorems about that function.

`dafny verify dfyconfig.toml` checks everything.

| part | modules | main results |
|---|---|---|
| Wiring and topology | `Wiring`, `Topology` | the backward scan over link counts rebuilds every tree of cables |
| Distributed clocks | `Clocks`, `Delays`, `Chain`, `Clockless` | stored delays are exact for any clock offsets in every wiring in which no slave without a clock splits; the clock chain; branches without clocks |
| Process image | `Segments`, `Fmmus`, `IoMap` | layout, disjoint windows and what they point at, segments that partition the image, when the mapping loop ends |
| Cyclic exchange | `Devices`, `Exchange`, `WorkCounter`, `MappedCycle` | a segmented cycle is one big transfer; the work counter |
| Frame driver | `Nic`, `Redundancy` | no cross-talk in any interleaving, and every reply that is not lost gets to its index; one break of the ring is hidden |
| Mailbox protocols | `Eoe`, `EoeReceive`, `Sdo`, `Foe` | splitting and joining undo each other, with the exact conditions; frames are never mixed; what success means |
| Frames, polling, caches | `Bytes`, `Frame`, `Polling`, `ReadState`, `Sii` | frames read back; fast paths agree with the simple forms |
| Setpoints | `Planner` | a move is monotone, never overshoots and ends exactly on the target; limits hold under any commands |

How the surroundings are modelled:

- Slaves are functions: on latched times (`Delays.Latches`), on logical memory (`Devices.Tour`), on frames
  (`Polling.Pass`, the `reply` of `Nic`, the `slaves` of `Redundancy`) or on EEPROM addresses (`Sii.Rom`).
- Process data is held as bits, bit i of the byte at logical address a being bit 8 * a + i. Mailboxes and frames are bytes.
- Timers become numbers of polls, a mailbox receive takes the next element of a list, a socket is a queue of packets.
- Doubles are reals; the square root of the planner is any function whose results are non-negative and square to
  the argument. Widths that matter are explicit: 32-bit clocks wrap, byte counters run over at 16 bits, fragment
  numbers at 6 and 8 bits, AL states are 16-bit vectors.

Where the code and what is said about it disagree, the model follows the code:

- `ecx_adddatagram` is commented as flagging the previous datagram; it flags the first one. The frame is right only
  because callers also pass `more` for all but the last, which is the condition of `Frame.FrameReadsBack`.
- `ecx_configdc` is commented as consuming a port of the branch root when a branch has no clock; a branch that splits
  holds its own split slave instead and consumes nothing of the root: `Clockless.GivesUpItsPortIffALine`.
- A clock behind a clockless slave that splits gets a delay that counts half the way through the other branches:
  `Delays.DelayIsArrivalIff`.
- The byte counter of the mapping loops is not reset between the windows of a slave, so a window is not one group of
  sync managers: `Fmmus.WindowIsItsGroupIff`, and `Fmmus.ThirdGroupGetsNoWindow` for a slave whose third group is never
  mapped.
- The two EoE receivers accept different frames. `ecx_EOEreadfragment` takes frames of at most 2016 bytes;
  `ecx_EOErecv` also takes longer ones as long as no fragment starts beyond byte 2047, but wants a buffer for the
  length rounded up as its six-bit field says it.
- The FoE writer rewinds on BUSY as if it meant to send again, and then leaves its loop reporting success. A reported
  success means that the file went out exactly when no answer was BUSY: `Foe.SuccessMeansSentIffNeverBusy`.
- A failed EEPROM access is cached as zeros like any data, and can overwrite good bytes: the set `failed` of `Sii.Cache`.
- A frame index is all that tells replies apart: `Nic.StaleReplyIsTaken` is a run in which a reused index gets the
  reply to its previous frame, and `Nic.PrepareIsSafeIff` says when reuse is safe.
- In an intact ring a lost frame is reported as the dummy of the second card, and a lost dummy hides a frame that all
  slaves have processed: `Redundancy.LossShows`.
- `ecx_EOErecv` takes a fragment numbered 0 in the middle of a frame if frame number and position are right; its count
  runs over at 256, where it takes a new frame number: `EoeReceive.ReceivesOneFrame`.
- An empty parameter in an expedited SDO message reads back as four bytes: the condition of `Sdo.SplitAndJoin`.
- The short branch of `ecx_readstate` stores the state nibble, the long one the whole register: the condition of
  `ReadState.ShortBranchAgrees`.

## Model

| member | source | states |
|---|---|---|
| Topology.SearchParent | soem/ethercatconfig.c:440-470 | the do-while scan ends and returns the parent that the recursive scan finds |
| Topology.FoundParent | soem/ethercatconfig.c:440-470 | for arbitrary link counts a parent has a smaller number than its slave, so climbing to a clock ends |
| Topology.ConfigLinks | soem/ethercatconfig.c:396-470 | every slave's record has its open ports, their number, its clock support and the parent found; the master's record stays |
| Topology.OpenPortsReadPortStates | soem/ethercatconfig.c:405-429 | whatever the register holds, port k is taken as open exactly when the two bits of port k, from bit 8 on, read 2 |
| Topology.ScanBranch | soem/ethercatconfig.c:443-467 | a finished branch of any shape costs the scan exactly one branch of credit |
| Topology.ScanRebuildsTree | soem/ethercatconfig.c:440-470 | for every wiring with up to three branches per slave, link counts in frame order alone give every slave its true parent |
| Topology.DetectionDescribesWiring | soem/ethercatconfig.c:405-470 | the records made from the data link status registers describe the wiring that these report: ports, counts and parents |
| Clocks.ParentPort | soem/ethercatdc.c:221-249 | takes the first unconsumed port in the order 3, 1, 2, 0 and removes it from the parent, touching nothing else |
| Clocks.ClockParent | soem/ethercatdc.c:361-368 | the loop ends at the nearest ancestor with a clock, or the master when there is none: every ancestor before it is a slave without a clock; the child is the last of these, or the slave itself |
| Clocks.Climb | soem/ethercatdc.c:361-368 | the climb ends: the clock parent has a smaller number than the slave below it, which is at most the slave itself |
| Clocks.ClimbEnds | soem/ethercatdc.c:361-368 | for any records the climb is k steps from slave to parent for some k >= 1, over slaves without a clock only, up to one with a clock or the master |
| Clocks.PrevPortIsLastBefore | soem/ethercatdc.c:178-218 | the previous port is the active port that a frame passed last before this one, going round in the order 0, 3, 1, 2 |
| Clocks.EntryPortIsReachedFirst | soem/ethercatdc.c:317-357 | the entry port is the active port with the lowest stamp, of equal ones the first in the order 0, 3, 1, 2 |
| Clocks.CombineBothDirections | soem/ethercatdc.c:394-409 | the sign of the earlier branches does not matter, a time below that exceeds the round trip adds to it, and halving is symmetric and drops at most a half |
| Clocks.ComputeDelay | soem/ethercatdc.c:379-410 | the three delta times, with 32-bit wrap-around, sign tests and division towards zero, combine to the specified delay |
| Clocks.ReadStamps | soem/ethercatdc.c:301-359 | the slave gets its latched times and as entry port the active port with the lowest stamp, which is consumed; no other record changes |
| Clocks.StampsAreRead | soem/ethercatdc.c:300-420 | after the walk every slave with a clock has its own four latched times, every other one zeros, whatever happened in between |
| Clocks.PortsAreOnlyGivenUp | soem/ethercatdc.c:221-433 | for any records and stamps, what is unconsumed are active ports, never the entry port of a clock; only clocks and splits give up any other |
| Clocks.SingleLinkParent | soem/ethercatdc.c:372-377 | a clock parent with a single link takes its child on its entry port |
| Clocks.HoldBranch | soem/ethercatdc.c:416-432 | a branch without any clock makes the branch root give up one port, once |
| Clocks.ConfigClock | soem/ethercatdc.c:282-415 | one slave with a clock: chain, stamps, parent port and delay change as one step of the specification |
| Clocks.ConfigDc | soem/ethercatdc.c:257-436 | the whole loop leaves the records and the chain of the specified run, and reports whether there is a clock |
| Delays.DelayIsArrival | soem/ethercatdc.c:379-410 | on exact stamps the delay formula gives the arrival time at the slave, whichever branch of its clock parent it is on and however many slaves without a clock stand in between |
| Delays.DelayForAnyEntry | soem/ethercatdc.c:379-410 | for slaves entered through any port, with stamps that show the earlier branches, the round trip over the cable and what is behind the slave, the delay is that of the parent plus the way to the slave |
| Delays.DelayIsArrivalIff | soem/ethercatdc.c:379-410 | where the stamps of the clock parent also count the way through other branches of a clockless slave, the delay is exact if and only if those take no time |
| Delays.RunBranch | soem/ethercatdc.c:279-433 | a whole branch of any size, with clockless slaves in it that do not split, gets exact delays, uses up one port of its clock parent and leaves no slave held |
| Delays.DelaysAreExact | soem/ethercatdc.c:279-433 | for every tree in which no clockless slave splits and any clock offsets, each stored delay is the time from the frame's arrival at the first clock to its arrival there; every clock is recorded on the port of its clock parent, 3, 1 or 2, behind which it lies, and every entry port is 0 |
| Delays.RegistersToDelays | soem/ethercatdc.c:257-436 | from status registers to delays: detection followed by measurement is exact for every cabling and any clock support as long as no clockless slave splits |
| Delays.EntryNeedsNoWrap | soem/ethercatdc.c:342-357 | whatever hangs on a slave, port 0 is recognised as its entry if and only if its clock does not run over before the frame is back from its last branch |
| Chain.PathIsTheClocks | soem/ethercatdc.c:279-299 | the path of the chain contains exactly the slaves with a clock |
| Chain.ChainVisitsClocks | soem/ethercatdc.c:279-299 | DCnext leads from the master along the clocks in increasing order and DCprevious is its inverse, whatever the tables held |
| Chain.FollowingTheChain | soem/ethercatdc.c:284-296 | any number of steps along DCnext reaches that element of the path |
| Clockless.OthersKeepRoot | soem/ethercatdc.c:416-432 | a clockless branch of any size that does not hold a slave never takes a port from it |
| Clockless.GivesUpItsPortIffALine | soem/ethercatdc.c:416-432 | a branch without clocks on a split slave makes that slave give up exactly one port if and only if the branch does not split, and otherwise none |
| Segments.Book | soem/ethercatconfig.c:1223-1237 | booking one contribution extends the greedy packing into at most 64 segments by it |
| Segments.PackAllKeepsSum | soem/ethercatconfig.c:1223-1237 | segments add up to the bytes booked |
| Segments.PackedSegmentsFit | soem/ethercatconfig.c:1225-1237 | every segment fits a datagram if and only if every contribution does |
| Segments.PackingIsMinimal | soem/ethercatconfig.c:1225-1237 | no way of cutting the contributions, in their order, into groups that fit a datagram needs fewer segments |
| Segments.PackWithinLimit | soem/ethercatconfig.c:1225-1237 | the table of 64 segments is the unlimited packing as long as that needs no more, and loses bytes otherwise |
| Segments.ContributionStaysWhole | soem/ethercatconfig.c:1223-1237 | the segment open after booking a contribution contains it entirely, whatever is booked later |
| Fmmus.GatherManagers | soem/ethercatconfig.c:925-953 | the inner loops gather the sync managers of one window; the 16-bit byte counter goes with the bits gathered, and the physical start is that of the first one |
| Fmmus.GatherCollects | soem/ethercatconfig.c:925-953 | what is gathered: the next sync manager of the type (or the last of all), then each next one of the type that begins no later than the end before it, until the bits suffice, none is left or one does not connect, where the search then stands |
| Fmmus.PhysicalByte | soem/ethercatconfig.c:930-953 | where the sync managers of a group abut, every byte of its window lies at the byte of the sync manager that has this place in the group |
| Fmmus.BitWindow | soem/ethercatconfig.c:956-975 | a slave with less than a byte gets a window of exactly its bits at the cursor, across a byte boundary if need be, at the physical start given |
| Fmmus.ByteWindow | soem/ethercatconfig.c:977-996 | a byte oriented window starts at the next whole byte, takes what the counter offers, at most what is due, and points at the physical start given |
| Fmmus.MapSlave | soem/ethercatconfig.c:922-1037 | the mapping loop ends; the windows of a slave follow each other without gap or overlap and cover exactly its bits or bytes; the first points at the first sync manager of the type (the last of all if there is none), each later one at the sync manager that opens its round; the slave counts once in the work counter |
| Fmmus.WindowsPointAtGroups | soem/ethercatconfig.c:922-953 | behind the windows of a slave are groups of sync managers, each collected from where the search stood after the one before, and each window points at the first of its group |
| Fmmus.LoopEndsIffCanMap | soem/ethercatconfig.c:922-1032 | the loop of a byte oriented slave ends if and only if a sync manager that its search can reach has bytes to give |
| Fmmus.WindowIsItsGroupIff | soem/ethercatconfig.c:933-991 | in any round for any sync managers, a window has the size of its own group if and only if it is the first and that many bytes are due, or these are all the bytes still due and the counter does not run over |
| Fmmus.ThirdGroupGetsNoWindow | soem/ethercatconfig.c:922-997 | a slave with three separate groups of two bytes: the second window takes four bytes and the third group is never reached |
| IoMap.MapDirection | soem/ethercatconfig.c:1202-1259 | one direction: every slave with data has its windows where the cursor stood, the contributions are packed in order, the slaves with data are counted |
| IoMap.GroupMap.MapGroup | soem/ethercatconfig.c:1178-1368 | outputs, then inputs: the group entry, all windows and all segments are those of the specified layout, all windows point into the sync managers of their own slave, and the size returned is output plus input bytes |
| IoMap.EverySlaveHasItsBits | soem/ethercatconfig.c:1202-1300 | every slave of the group has windows for exactly its own outputs and inputs, pointing at its own sync managers of that type; the work counters count the slaves of the group that have outputs or inputs |
| IoMap.NoGaps | soem/ethercatconfig.c:956-996 | a slave with less than a byte starts right at the cursor, others at the next whole byte; what is skipped before a slave, and by forced alignment behind it, is less than a byte |
| IoMap.WindowsInside | soem/ethercatconfig.c:1060-1171 | the windows of a slave lie inside its part of the image, each starting where the one before ends |
| IoMap.SlavesAreDisjoint | soem/ethercatconfig.c:1202-1240 | windows of different slaves never share a bit |
| IoMap.OutputsBeforeInputs | soem/ethercatconfig.c:1241-1309 | every output window ends before any input window begins |
| IoMap.SegmentsPartitionImage | soem/ethercatconfig.c:1213-1353 | each segment fits a datagram, and they add up to the size returned if and only if 64 segments suffice |
| IoMap.InputsAreLocated | soem/ethercatconfig.c:1260-1264 | Isegment and Ioffset locate exactly byte Obytes of the image |
| IoMap.SlaveStaysInSegment | soem/ethercatconfig.c:1213-1253 | under forced byte alignment one segment contains all of a slave's data |
| Devices.TourAnswers | soem/ethercatmain.c:1944-1980 | what comes back from any number of slaves in turn: input bits where a slave maps them, sent bits elsewhere, and the sum of the slaves' counts |
| Devices.TourDelivers | soem/ethercatmain.c:1740-1872 | every slave keeps exactly the bits of its output window as they were sent |
| Exchange.Master.SendDatagram | soem/ethercatmain.c:1843-1869 | a datagram goes out under an index no other uses and is pushed, the clock datagram with the first one only |
| Exchange.OffsetsAreThoseOfTheFrame | soem/ethercatmain.c:1950-1972 | the places where the answer is read: process data, its work counter and the clock's time lie in the received frame where the frame builder put them, for any two datagrams |
| Exchange.SegmentAndClockFitIff | soem/ethercattype.h:51-56 | a datagram with the clock datagram behind it makes a frame of at most 1518 bytes if and only if its data is at most the segment limit |
| Exchange.Master.SendInputs | soem/ethercatmain.c:1748-1788 | the LRD datagrams carry the input bytes in order without gap, one per segment from Isegment on, the first shortened by Ioffset |
| Exchange.Master.SendOutputs | soem/ethercatmain.c:1789-1826 | the LWR datagrams carry the output bytes in order without gap and deliver them |
| Exchange.Master.SendBoth | soem/ethercatmain.c:1828-1871 | the LRW datagrams carry the whole image in order without gap, one per segment |
| Exchange.Master.SendProcessdata | soem/ethercatmain.c:1705-1875 | after sending, every slave has its outputs and one entry waits for each datagram |
| Exchange.Master.ReceiveProcessdata | soem/ethercatmain.c:1920-1988 | all entries are taken, the image holds the slaves' answers over what was sent, the counter adds up with writes counted twice, the clock's time is stored if the group has a clock and data and stays otherwise, the stack is clear again |
| Exchange.Master.Cycle | soem/ethercatmain.c:1705-1988 | in either mode and for any segmentation a cycle is one big transfer: every output window has reached its slave, every input window has come from its slave, output bytes stay, input bits of nobody come back as sent (zero with LRD), and DCtime is the time returned by the clock, or unchanged without clock or data |
| WorkCounter.CountByDevice | soem/ethercatmain.c:1944-1980 | summing the counter over datagrams or over slaves gives the same |
| WorkCounter.ReachedOnceIffUncut | soem/ethercatmain.c:1740-1872 | a slave's window is reached by exactly one datagram of a run if and only if no boundary cuts it |
| WorkCounter.CounterIsExpectedIffNothingCut | demo/eRob_CSP.cpp:393 | the counter is 2 * outputsWKC + inputsWKC if and only if no slave's data is cut, in LRW as in LRD/LWR mode, and never lower |
| MappedCycle.LayoutIsUsable | soem/ethercatconfig.c:1260-1353 | a mapped group in which contributions fit and 64 segments suffice meets all that the exchange asks of a group |
| MappedCycle.LayoutIsMapped | soem/ethercatconfig.c:1202-1353 | the mapper puts every slave where the exchange expects it |
| MappedCycle.AlignedCounter | soem/ethercatmain.c:1944-1980 | with the byte-aligned map the counter of a cycle is 2 * outputsWKC + inputsWKC for any slaves, any segmentation and either mode |
| Nic.Port.GetIndex | oshw/linux/nicdrv.c:218-250 | one round of search: returns the specified index, marks it allocated, on both cards if redundant, and changes nothing else |
| Nic.Port.SetBufStat | oshw/linux/nicdrv.c:257-262 | sets the state of one index, on both cards if redundant |
| Nic.Port.OutFrame | oshw/linux/nicdrv.c:270-291 | a frame that the socket takes is marked sent, one that it refuses leaves its index empty |
| Nic.Port.ReceiveFrame | oshw/linux/nicdrv.c:373-453 | one poll: the stored reply, or one packet from the socket filed under its own index when someone waits for it |
| Nic.NewIndexIsFree | oshw/linux/nicdrv.c:225-241 | the index is unused if and only if any is, and it is the first unused one after the last handed out |
| Nic.StepKeeps | oshw/linux/nicdrv.c:218-453 | every step of a client or of the network keeps: all under way and all received for an index is the reply to its own frame; frames may be sent, sent again and polled in any state of their index |
| Nic.RunsKeep | oshw/linux/nicdrv.c:218-595 | no cross-talk in any interleaving of any number of clients, with packets reordered or lost, sends refused and frames sent again, as long as a buffer is not filled while a packet or a reply of its index is still about |
| Nic.StoredReplyStays | oshw/linux/nicdrv.c:429-439 | a reply stored by another waiter stays until its owner acts, whatever others do while indices are not exhausted |
| Nic.OwnerGetsStoredReply | oshw/linux/nicdrv.c:394-401 | the owner's next poll returns the stored reply and its counter without reading the socket |
| Nic.ReplyIsDelivered | oshw/linux/nicdrv.c:373-453 | over any run: while an index waits and the reply to its frame is under way, then after any events but acts of its holder and the loss of that packet the reply is still under way or filed for the index, whoever polls; once it has left the socket the holder's next poll returns it |
| Nic.PollingReachesReply | oshw/linux/nicdrv.c:373-453 | a holder that keeps polling gets its reply from the socket after the packets in front of it, each reported as another frame |
| Nic.PollReports | oshw/linux/nicdrv.c:384-452 | a poll returns a counter exactly when it completes the index, no frame exactly when nothing was there to read; another index changes only by getting the packet it waited for |
| Nic.PrepareIsSafeIff | oshw/linux/nicdrv.c:417-439 | filling the buffer of an index keeps replies apart if and only if every packet under way for it, and the reply kept for it if any, is the reply to the new contents |
| Nic.StaleReplyIsTaken | oshw/linux/nicdrv.c:218-427 | a run of send, release, allocate, fill, send, arrival and poll that completes with the reply to the earlier frame |
| Redundancy.RedundantPort.WaitInFrame | oshw/linux/nicdrv.c:467-541 | the two polling loops and the decision tree give the specified buffer and counter for every pair of arrivals and delays, with and without a second card |
| Redundancy.ReachableSlavesServed | oshw/linux/nicdrv.c:467-541 | with two breaks every slave that either card can reach processes the frame once and in order |
| Redundancy.OneBreakIsHidden | oshw/linux/nicdrv.c:299-541 | with no break or one anywhere, master cables included, buffer and counter are those of a frame processed once by every slave in order |
| Redundancy.NoFrameIff | oshw/linux/nicdrv.c:492-540 | no frame is reported if and only if the first card got nothing and the second one no dummy, or lost the frame sent again; the buffer then stays, and otherwise the counter is that of the buffer |
| Redundancy.NobodyReachable | oshw/linux/nicdrv.c:467-541 | when neither card reaches a slave no frame is reported and the buffer stays |
| Redundancy.LossShows | oshw/linux/nicdrv.c:467-541 | what each loss looks like: in an intact ring a lost frame shows as the dummy and a lost dummy as no frame; in a broken one the result is that of the part that answered |
| Redundancy.SendAndWait | oshw/linux/nicdrv.c:299-541 | the same through the polling loops, whenever what arrives does so before the timers expire |
| Planner.MotionPlanner.PlanTrajectory | demo/eRob_CSP.cpp:801-834 | one call advances position and velocity as specified and returns the rounded position inside the 32-bit range |
| Planner.Follow | demo/eRob_CSP.cpp:734-740 | calls in successive cycles, the destination replaced in each: the setpoints are the rounded positions of one motion, which the planner's state carries from call to call |
| Planner.SteadyCommand | demo/eRob_CSP.cpp:734-740 | as long as the destination stays the same these are the steps of one move, to which the correctness of a move applies |
| Planner.LimitsHold | demo/eRob_CSP.cpp:816-830 | for any destinations, also replaced in the middle of a move: speed, change of speed and distance of a cycle never exceed their limits |
| Planner.StepKeepsCourse | demo/eRob_CSP.cpp:809-828 | the no-overshoot invariant is kept by every step, which gets at least 1/50 count closer or ends the move |
| Planner.MoveIsCorrect | demo/eRob_CSP.cpp:801-834 | from rest at any position to any target at 1 ms: monotone, never past the target, and exactly at rest on it within 50 calls per count plus one |
| Bytes.CopyInto | soem/ethercateoe.c:607 | a memcpy replaces exactly the bytes from its position on |
| Bytes.LowByteFirst | soem/ethercatcoe.c:431 | 16- and 32-bit numbers are stored with the low byte first |
| Bytes.Le16ReadsBack | soem/ethercatbase.c:78-83 | a 16-bit number stored low byte first reads back |
| Bytes.Le32ReadsBack | soem/ethercatcoe.c:431 | a 32-bit number stored low byte first reads back |
| Frame.TxFrame.SetupDatagram | soem/ethercatbase.c:68-91 | header, data and zero counter are at their places after the Ethernet header, all other bytes stay, the length is set |
| Frame.TxFrame.AddDatagram | soem/ethercatbase.c:106-146 | total length grown, first datagram flagged, new datagram behind the others; returns where its data will be in the received frame |
| Frame.TxFrame.WriteDatagramData | soem/ethercatbase.c:31-55 | the data area holds the data, or zeros for the five commands that only read |
| Frame.ReadsOnlyIff | soem/ethercatbase.c:35-48 | of all commands exactly those that carry nothing to the slaves get zeros |
| Frame.BuiltHolds | soem/ethercatbase.c:68-146 | after one setup and any number of adds every datagram lies behind the one before, and the length field counts them all |
| Frame.FrameReadsBack | soem/ethercatbase.c:31-146 | the frame parses back to the same commands, addresses, lengths and data with zero counters if and only if `more` was given for all added datagrams but the last |
| Frame.OffsetsPointAtData | soem/ethercatbase.c:143-145 | the offset returned for a datagram points at its data in the frame without the Ethernet header |
| Polling.PassAnswers | soem/ethercatmain.c:690-713 | a chain of FPRD datagrams comes back with the registers of the slaves that were asked, in their order, and zeros where nobody has the address |
| Polling.FprdMulti | soem/ethercatmain.c:682-716 | for up to 64 addresses, entry i of the result is what slave i of the list has in its status registers, zeros if it does not answer; nothing changes when the frame is lost |
| ReadState.Master.StoreBatch | soem/ethercatmain.c:806-817 | a batch stores state and code of its slaves, updates the lowest state and the collected codes |
| ReadState.Master.PollAll | soem/ethercatmain.c:784-820 | batches of 64 ask every slave exactly once, in order, and leave every state, code and the lowest state, silent slaves and lost batches reading as zero |
| ReadState.Master.ReadState | soem/ethercatmain.c:723-823 | the short branch stores the broadcast state for all and asks nobody; otherwise everybody is polled |
| ReadState.SilenceReadsAsZero | soem/ethercatmain.c:797-810 | what is read for a slave is all zeros if and only if its state and code are zero |
| ReadState.BroadcastShowsAll | soem/ethercatmain.c:735 | every bit of every slave's register shows in the broadcast answer |
| ReadState.ShortIff | soem/ethercatmain.c:735-767 | the short branch is taken if and only if every slave answers the broadcast, none shows the error flag and all that show a state show the same single one |
| ReadState.LowestIsLowest | soem/ethercatmain.c:802-820 | the lowest state is the state of some slave and no slave has a lower one |
| ReadState.CodesAreJoined | soem/ethercatmain.c:811-815 | entry 0 of the status codes has the bits of all codes and no others |
| ReadState.ShortBranchAgrees | soem/ethercatmain.c:732-782 | whenever the short branch is taken, its states and lowest state are those of polling if and only if every slave is in a non-zero state without bits above it |
| Sii.Cache.Mark | soem/ethercatmain.c:378-391 | the bits of exactly the bytes read are set, across words of the bitmap |
| Sii.Cache.SiiGetByte | soem/ethercatmain.c:333-396 | returns the slave's byte, or 0xff beyond the cache, or zero where the last access to the byte failed; exactly the bytes of an access are marked in addition, and all are forgotten when the slave changes; the slave is accessed exactly when the byte is not marked |
| Sii.Cache.Serve | soem/ethercatmain.c:333-396 | any sequence of requests for any slaves gets the right bytes when accesses work, and never anything but those or zeros |
| Eoe.InfoFields | soem/ethercateoe.h:64-98 | the fields packed into the two information words read back modulo their widths |
| Eoe.Sender.MakeFragment | soem/ethercateoe.c:340-379 | one fragment: size, last mark and information words, with the eight-bit fragment count that raises the frame number whenever it is zero |
| Eoe.Sender.EoeSend | soem/ethercateoe.c:316-391 | the loop ends and sends the specified fragments, or those before the first one that the mailbox refuses, which it reports |
| Eoe.FramesAreToldApart | soem/ethercateoe.c:340-379 | two frames sent one after the other, of at most 256 fragments each, carry one frame number each and not the same |
| Eoe.Reader.EoeReadFragment | soem/ethercateoe.c:528-626 | one call changes state, buffer and length as specified, in every error branch too |
| Eoe.CallReports | soem/ethercateoe.c:545-625 | other mailboxes are left alone and reported; a fragment is an error exactly when it neither begins a frame nor continues the one being received, which is then given up; 1 is returned exactly for a good last fragment; the buffer changes only inside its limit |
| Eoe.FittingFrameArrives | soem/ethercateoe.c:338-388 | frames that fit arrive from any state, each fragment but the last answered by 0 and the last by 1 |
| Eoe.NeverBeyondTheField | soem/ethercateoe.c:575-612 | no sequence of unstamped fragments completes a frame of more than 2016 bytes or more than the buffer |
| Eoe.DeliversOneFrame | soem/ethercateoe.c:528-626 | for any mailboxes in any order with any missing: when a receiver that was not inside a frame reports a complete one, its bytes are those of fragments with one frame number and the numbers 0, 1, 2, ..., each at the position its field says, less the time stamp of the last; every other fragment since the first was of that frame and too long |
| Eoe.ReassemblyIsLossless | soem/ethercateoe.c:338-626 | from any reassembly state the fragments of a frame give back exactly that frame, one completion at the end, if and only if it has at most 2016 bytes and fits the buffer |
| EoeReceive.EoeRecv | soem/ethercateoe.c:408-508 | the blocking loop returns what the specified reception gives for any list of mailboxes |
| EoeReceive.ReceivesOneFrame | soem/ethercateoe.c:425-500 | a successful reception delivers fragments that carry one frame number in each run of 256, from the right port, each at the position its field says, numbered with the count or 0; a time stamp is cut off |
| EoeReceive.ReceptionIsLossless | soem/ethercateoe.c:408-508 | the frame arrives if and only if the ports agree, the buffer holds it and its announced size, and no fragment starts beyond byte 2047 |
| Sdo.SdoWrite | soem/ethercatcoe.c:346-535 | sends the specified expedited, initial and segment messages, or those up to the first one that is not confirmed, which it reports |
| Sdo.FirstMessage | soem/ethercatcoe.c:365-432 | the first message names the object, with subindex 0 or 1 under complete access; its command is a download that says whether it is complete access and expedited and how many bytes are unused; an expedited one holds the data, any other its size |
| Sdo.MessagesFillMailbox | soem/ethercatcoe.c:356-497 | no message is longer than the mailbox, and all but the last fill it |
| Sdo.SdoRead | soem/ethercatcoe.c:161-286 | decodes any list of answers as specified and asks for segments with alternating toggle |
| Sdo.JoinsIffClosed | soem/ethercatcoe.c:205-253 | for any answers: the segment loop succeeds if and only if they begin with segments up to one marked last, yields their data one behind the other and has asked for each with alternating toggle |
| Sdo.SegmentFlags | soem/ethercatcoe.c:465-516 | the toggle alternates from its start value, and exactly the final segment is marked last |
| Sdo.JoinUndoesSplit | soem/ethercatcoe.c:197-255 | joining the segments gives back exactly the bytes that were split |
| Sdo.SplitAndJoin | soem/ethercatcoe.c:346-519 | for every mailbox longer than 16 bytes, reading what was written gives the parameter if and only if the same object is read, the buffer can hold it and it is not an empty expedited one; requests carry the segments' toggles |
| Foe.Writer.Turn | soem/ethercatfoe.c:247-356 | one turn of the write loop for any mailbox, BUSY and errors included, and for a send that is refused |
| Foe.WriteReports | soem/ethercatfoe.c:247-356 | which answers end a write and by which code each is reported; it goes on exactly when a packet went out |
| Foe.Reader.Turn | soem/ethercatfoe.c:114-186 | one turn of the read loop for any mailbox, and for an acknowledgement that is refused |
| Foe.ReadReports | soem/ethercatfoe.c:114-186 | which mailboxes end a read and by which code each is reported; bytes are stored exactly for the next packet that fits |
| Foe.Transfer | soem/ethercatfoe.c:109-350 | both loops against each other end and give the specified exchange |
| Foe.PacketCount | soem/ethercatfoe.c:259-298 | n / m + 1 packets, numbered upward, only the last shorter than m |
| Foe.FileArrives | soem/ethercatfoe.c:109-312 | a file of any length arrives unchanged in n / m + 1 packets numbered from 1 if and only if the reader's buffer can hold it; otherwise both ends report failure and the reader holds a prefix |
| Foe.WriteFile | soem/ethercatfoe.c:247-357 | the write loop ends for any list of answers, with a timeout after the last, in the state and with the packets specified |
| Foe.ReadFile | soem/ethercatfoe.c:114-186 | the read loop ends for any list of mailboxes, with a timeout after the last, in the state and with the acknowledgements specified |
| Foe.ReadSucceedsIff | soem/ethercatfoe.c:114-186 | a read reports success if and only if what came are packets 1, 2, ... of which only the last is not a full one, the buffer holds them and every acknowledgement was taken; the file is then their bytes in order |
| Foe.SuccessMeansSentIffNeverBusy | soem/ethercatfoe.c:247-356 | for any list of answers and refused sends, a write that reports success has sent the whole file in its packets if and only if no answer it took was BUSY |
| Foe.BusyLooksLikeSuccess | soem/ethercatfoe.c:314-329 | BUSY at once, or after the first of two packets, ends in success with nothing, or only the first packet, sent |

## Left out

- DelaysAreExact: assumes what the measurement itself assumes: port 0 faces the master, cables are as slow in one
  direction as in the other, forwarding costs no time, no clock runs over meanwhile, and no slave without a clock
  splits; `Delays.DelayIsArrivalIff` says what a split does to a delay, and `Clockless` what it does to the ports.
- ConfigDc: group flags, the 64-bit system time offset and the register writes are not modelled; for a slave without
  any active port the code reads an unset list entry, which the model takes as port 0.
- MapGroup: the number of FMMU entries per slave and the search for a free one are not modelled (windows are a list),
  nor are the programming of sync managers, the counting of slaves that block LRW and the bus current; logical addresses
  do not wrap at 32 bits.
- SendProcessdata: the sequential map only; the overlapped map is left out, as is the truncation of a segment length
  to 16 bits, which no segment that fits a datagram reaches.
- Cycle: every frame returns and at most 16 datagrams are used; the clock datagram is an opaque reply that rides in
  the first frame.
- SegmentsPartitionImage: unaligned slaves with less than a byte may be cut by a segment boundary, as in the code; no
  claim is made that they are not.
- ReplyIsDelivered: an index is taken only while an unused one is left; with none left the search hands out one in use.
- RunsKeep: a call of the driver is one atomic step, and the buffer of an index is filled only while none of its packets
  is under way and no reply is kept for it; `Nic.PrepareIsSafeIff` says what happens otherwise.
- WaitInFrame: one frame index; the state of the index on the second card and frames of other indices are not modelled.
- MoveIsCorrect: the target stays fixed (`Planner.LimitsHold` is for any targets) and the period is 1 ms; rounding of
  doubles is not modelled.
- EoeSend: mailbox counters are left out; a mailbox with room for less than 32 bytes takes only frames that fit it, as the
  code would send empty fragments for ever.
- SdoWrite: lost mailboxes and mailbox counters are left out; with a lost mailbox the segment loops go on and flip their
  toggle.
- SdoRead: the request that opens a read is not modelled; sizes of 2 GiB and more, and lengths beyond the mailbox, are
  left out; the type fields of CoE and service are taken as right; segments are not held against the size of the
  caller's buffer, as in the code.
- Transfer: packet numbers do not wrap at 32 bits; file name, password and progress hook are left out.
- SiiGetByte: an EEPROM access stays inside the buffer; the bitmap is an array of bits, not of words.
- PollAll: without any slave the code sends one datagram to an address from an unset list entry; the model sends none.
- Sockets, threads, sleeps and timers, the other network drivers, the demo start-up sequences and their printing.
- SII section parsing, SoE, object dictionary listing, slave tables, error ring, drive profile code: they would add
  only easy members.
- The interrupt field of a datagram, which the code never writes, stays as it was found in the buffer.
