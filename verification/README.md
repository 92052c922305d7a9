# Models of the traffic profiler, the compiled connection limiters and the DPDK programs

This project models four parts of the repository and proves what they are for.

1. **The traffic profiler** (`synthesized/echo-profiler.cpp`): the reader that merges
   per-device captures by timestamp, the per-flow statistics with their hash sets, the epochs,
   the report's aggregation loops and the main loop. Files `PcapReader`, `ReaderRuns`,
   `ReaderOrder`, `RawIp`, `RoundRobin`, `TiedStretches`, `Stats`, `MapStats`, `Report`, `Profiler`.
2. **Three compiled controllers of one connection limiter** (`synthesized/cl-f40000-c0-unif-*`):
   operation trees with an interpreter, general reorderings of trees proved to keep their
   meaning, the three trees as instances, and every run of the resulting state machine. Files
   `LimiterTrees`, `LimiterPrograms`, `LimiterRuns`, `LimiterController`.
3. **The DPDK forwarding loop** (`dpdk-nfs/nf.c`). File `Forwarding`.
4. **Parsers, printers and packet chunks** (`dpdk-nfs/nf-util.c`, `nf-parse.c`, `nf-util.h`,
   `lib/util/packet-io.c`). Files `CText`, `IntList`, `Addresses`, `Chunks`.

`Basics` and `Sums` hold the types and set facts they share.

Code that changes state is a class with the source's fields, or a method with the source's loop.
Each such method is proved to take the abstract value of the object (`View`) to the value a
specification function or relation gives; the lemmas are about those values, hence about any
number of calls. The iteration order of hash tables is never assumed: a choice in the reader
goes through an arbitrary enumeration, `Next` and `Eligible` are relations, and the results hold
for every run they allow.

## What holds, and where the code does less than it might seem

- **Merge.** What the reader delivers for each device is, in order and once each, what setup
  queued for it (`MergeIsInterleaving`). `total_packets` is the number of packets delivered
  exactly when no capture discards packets of an earlier one on the same device (`MergeCount`,
  `Lossless`); with distinct devices nothing is lost (`DistinctFeeds`). The output is in
  timestamp order exactly when every device's packets are (`MergeSorted`), and 100 % is printed,
  by the last packet only, exactly when nothing was lost (`ProgressReports`).
- **Round robin.** The choice is made among the devices tied at the smallest timestamp, but
  line 220 compares the recently served ones with all pending devices. So ties are served in fair
  blocks exactly when one device is tied, or when every pending device is and the stretch starts
  in one of three ways (`RoundRobinExact`, `ReaderRoundRobinExact`). As soon as one pending device
  is later than the tie, the set of recent devices is cleared at most once more; after a few calls
  it holds the tied devices for good and a single one of them is served (`StarvedStretch`). Three
  captures are enough (`LaterDeviceStarves`). The same follows when a capture ends inside a stretch and
  leaves more recent devices than pending ones (`EndOfCaptureBreaksFairness`).
- **Limiters.** The three orders of borrow, put and branch mean the same (`InstallsAgree`). The
  controllers differ exactly where their refusals do (`CuckooVersusMaxTput`,
  `CuckooVersusGuarded`). Flows and allocated indices stay in bijection exactly when the flow
  map has room for every index or has a guard and any room at all (`BijectionExact`), since a
  put into a full map is ignored after the index was taken. The tables as deployed have equal
  sizes, so all of it holds for them (`DeployedTables`).
- **Forwarding.** With whole batches taken, received equals freed plus transmitted, in order per
  output (`RoundsConserve`). After a short send the loop frees entries of the receive array
  instead of the batch; every buffer is disposed of once exactly when each short batch is the
  beginning of the burst (`ShortSendExact`), and `ShortSendExample` is an input for which it
  is not.
- **Integer lists** read back, in any base, exactly when the separator is not the terminator,
  every value fits an `intmax_t`, and the separator ends each value before the last: it is no
  digit in the base the value is read in (a lone 0 is octal when the base is 0), and not an x
  after a lone 0 in base 16 or 0 (`RoundTripExact`). Signs and white space are fine.

## Model

| member | source | states |
|---|---|---|
| PcapReading.PcapReader.Read | synthesized/echo-profiler.cpp:240-268 | the next frame of the file, with an Ethernet header in front and 14 added to its length for raw IP captures; at the end the file is rewound and nothing is returned |
| RawIp.IngestMeaning | synthesized/echo-profiler.cpp:252-265 | a raw IP frame gets 14 bytes in front, the two addresses as nf_parse_etheraddr parses them and the IPv4 type, and its length grows by 14 in 32 bits; other frames stay as they are |
| PcapReading.PcapReader.AccumulateStats | synthesized/echo-profiler.cpp:279-286 | the counting pass adds the number of frames and their WireBytes, and leaves the file where it was |
| PcapReading.WireBytes | synthesized/echo-profiler.cpp:284 | a packet adds its length and four bytes, reduced to 32 bits |
| PcapReading.PcapReader.Setup | synthesized/echo-profiler.cpp:145-190 | after all captures, the reader is the one SetUp describes: a later capture on a device replaces the earlier one, except that an empty one leaves its pending packet |
| PcapReading.PcapReader.EarliestTs | synthesized/echo-profiler.cpp:193-202 | -1 without pending packets, else the smallest pending timestamp, for any iteration order |
| PcapReading.PcapReader.Choose | synthesized/echo-profiler.cpp:204-218 | for any iteration order, the last tied device outside last_devs or else the first tied one; hence an eligible device |
| PcapReading.PcapReader.UpdateAndShowProgress | synthesized/echo-profiler.cpp:288-301 | one more packet processed; the percentage is printed exactly if it exceeds the last one |
| PcapReading.PcapReader.GetNextPacket | synthesized/echo-profiler.cpp:192-237 | false exactly with nothing pending, and then nothing changes; else one step of Next: an eligible device, its pending packet, last_devs and progress updated, the next frame pending or the device gone |
| PcapReading.EligibleExact | synthesized/echo-profiler.cpp:204-218 | over all iteration orders the loop ends with exactly the eligible devices: at the earliest timestamp, and outside last_devs if any such device is |
| ReaderRuns.NextTakesHead | synthesized/echo-profiler.cpp:192-237 | a call takes exactly the head of what its device has left and touches no other device |
| ReaderRuns.MergeIsInterleaving | synthesized/echo-profiler.cpp:145-277 | until it returns false, get_next_packet delivers every device's queued packets in order, once each, and no replay of the rewound file |
| ReaderRuns.DistinctFeeds | synthesized/echo-profiler.cpp:151-189 | with one capture per device, what is queued for a device is its whole capture |
| ReaderRuns.FeedOfLast | synthesized/echo-profiler.cpp:177-187 | on a repeated device, what is queued is the last capture that is not empty, or only its first packet if empty ones follow |
| ReaderRuns.LossExact | synthesized/echo-profiler.cpp:177-187 | the packets queued by setup are at most those counted, and as many exactly when no capture discards packets of an earlier one on its device |
| ReaderRuns.MergeCount | synthesized/echo-profiler.cpp:145-286 | the number of successful calls is at most total_packets, and equal to it exactly for lossless configurations |
| ReaderRuns.MergeBytes | synthesized/echo-profiler.cpp:279-286 | for every lossless configuration total_bytes is the sum over the packets delivered of length + 4 in 32 bits; below the wrap-around, the sum of the lengths plus four per packet |
| ReaderRuns.AllBytes | synthesized/echo-profiler.cpp:279-286 | for every configuration total_bytes counts length + 4, in 32 bits, of every frame of every capture |
| ReaderOrder.NextIsEarliest | synthesized/echo-profiler.cpp:193-218 | the packet delivered is no later than any packet any device has left, if that device is in order |
| ReaderOrder.MergeSorted | synthesized/echo-profiler.cpp:192-237 | the merged stream is in timestamp order exactly when every device's packets are |
| ReaderOrder.HundredIsLast | synthesized/echo-profiler.cpp:288-301 | 100 has been printed exactly when all packets counted by setup were delivered |
| ReaderOrder.ProgressReports | synthesized/echo-profiler.cpp:288-301 | over a whole run the printed percentages strictly increase within 0..100; 100 is printed by the last packet only, and exactly for lossless configurations |
| ReaderOrder.PrintedExactly | synthesized/echo-profiler.cpp:288-301 | v is printed exactly if some packet k delivered has v * total <= 100 * k < (v + 1) * total |
| RoundRobin.RoundRobinExact | synthesized/echo-profiler.cpp:204-225 | with T the devices tied at the smallest timestamp and q the number of pending ones: a stretch is served in fair blocks, whatever the hash table order, exactly when one device is tied, or all pending ones are and the stretch starts with last_devs empty, as large as the pending set, or a single stale device |
| RoundRobin.Starve | synthesized/echo-profiler.cpp:220-225 | once a pending device is not tied, or last_devs is larger than the pending set, every call after at most two per tied device serves the first tied device of the order |
| RoundRobin.FairOnceFilled | synthesized/echo-profiler.cpp:220-225 | in the remaining case, all pending devices tied and no more of them in last_devs, blocks are fair from the call on that fills last_devs |
| TiedStretches.StretchIsTieRun | synthesized/echo-profiler.cpp:204-225 | calls of the reader during which pending and tied devices stay the same are such a run of choices, with last_devs empty at a new timestamp |
| TiedStretches.ReaderRoundRobinExact | synthesized/echo-profiler.cpp:192-237 | the reader, with packets enough left at the timestamp, serves the tied devices in fair blocks whatever the hash table order exactly from the fair starts; both halves are about runs of get_next_packet |
| TiedStretches.FairStretch | synthesized/echo-profiler.cpp:192-237 | from a fair start every stretch of reader calls is fair, with no demand on the packets left |
| TiedStretches.FairAfterFilling | synthesized/echo-profiler.cpp:204-225 | with all pending devices tied and last_devs not larger, reader calls are fair from the call on that fills last_devs, even if the order changes from call to call |
| TiedStretches.StarvedStretch | synthesized/echo-profiler.cpp:204-225 | with a later pending device or an overlarge last_devs, every reader call after the first few serves the first tied device of the order |
| TiedStretches.SetUpStarves | synthesized/echo-profiler.cpp:145-225 | from any setup that leaves a device pending after the tied ones, the reader can go on, and serves one tied device only after one call for each of them |
| TiedStretches.LaterDeviceStarves | synthesized/echo-profiler.cpp:145-225 | an input: captures of two devices at time 5 and of a third at time 9; from the third call on one device is served, for as long as the captures are |
| TiedStretches.EndOfCaptureBreaksFairness | synthesized/echo-profiler.cpp:220-234 | when the last device of a cycle ends, what follows at this timestamp is fair only with one tied device |
| FlowStats.Stats.constructor | synthesized/echo-profiler.cpp:408-417 | the loop ends, with empty sets for exactly the 32 masks of low bits |
| FlowStats.Stats.InsertHashes | synthesized/echo-profiler.cpp:424-427 | in any iteration order, the masked hash enters every set |
| FlowStats.Stats.Update | synthesized/echo-profiler.cpp:419-428 | counter, total and all 32 hash sets take one key |
| FlowStats.CountersMeaning | synthesized/echo-profiler.cpp:419-423 | after any updates each counter is the number of occurrences of its key, and the counters sum to total_count |
| FlowStats.HashSetIsImage | synthesized/echo-profiler.cpp:424-427 | the set of mask 2^k - 1 holds the k low bits of the hashes of all keys seen |
| FlowStats.LowIsRemainder | synthesized/echo-profiler.cpp:426 | the k low bits are the remainder modulo 2^k |
| FlowStats.HashSetsRefine | synthesized/echo-profiler.cpp:408-428 | each set is the next wider one under its mask, and between half its size and its size |
| FlowStats.HashSetBounds | synthesized/echo-profiler.cpp:408-428 | a set has at most 2^k members and at most one per flow |
| EpochStats.MapStats.Init | synthesized/echo-profiler.cpp:447 | a new node starts empty; a known one keeps its counters |
| EpochStats.MapStats.Update | synthesized/echo-profiler.cpp:449-462 | when a new epoch opens, what is counted where, and that an unknown node throws after the epoch was opened |
| EpochStats.Ledger | synthesized/echo-profiler.cpp:449-462 | for every additive quantity, epochs and nodes gain the same: what the updates outside warmup bring |
| EpochStats.EpochLedger | synthesized/echo-profiler.cpp:449-462 | each key's count over the epochs equals its count over the nodes and the number of its updates outside warmup; likewise the totals |
| EpochStats.NodesHoldKeys | synthesized/echo-profiler.cpp:449-462 | after any updates every node holds the statistics of exactly the keys counted for it |
| EpochStats.CountedAt | synthesized/echo-profiler.cpp:454-457 | the keys counted for a node are those of exactly its updates outside warmup, in order |
| EpochStats.MeasuredAt | synthesized/echo-profiler.cpp:454-457 | the keys counted in epochs are those of exactly the updates outside warmup, in order |
| EpochStats.EpochCuts | synthesized/echo-profiler.cpp:449-462 | the updates are cut into epochs: one starts with the first update, the first after warmup, and the first more than 1_000_000_000 after the start of the one before, and nowhere else; it starts at the time of its first update, ends at that of its last and counts exactly its updates outside warmup |
| EpochStats.EpochsCutKeys | synthesized/echo-profiler.cpp:449-462 | every epoch holds the statistics of its keys, and the epochs cut the counted keys, in order, into consecutive stretches |
| EpochStats.NodeHashSets | synthesized/echo-profiler.cpp:408-428 | the 32 hash sets of every node, whose sizes the report prints: each the next wider one under its mask, between half its size and its size, at most 2^k and at most one per flow |
| EpochStats.EpochTiming | synthesized/echo-profiler.cpp:449-462 | epochs last between 0 and the epoch duration; those of one phase are disjoint and start more than a duration apart; warmup epochs come first and hold no keys |
| ReportAggregation.SortKeeps | synthesized/echo-profiler.cpp:574 | sorting permutes, keeps the sum and descends |
| ReportAggregation.PktsPerFlow | synthesized/echo-profiler.cpp:568-579 | the counters of all flows, each once, largest first |
| ReportAggregation.BagMeaning | synthesized/echo-profiler.cpp:570-573 | each number stands in a list of counters once for every key with that counter |
| ReportAggregation.EpochFlows | synthesized/echo-profiler.cpp:599-610 | the counters of the flows the previous epoch had too, and of the others, each list descending |
| ReportAggregation.ReportIsDeterministic | synthesized/echo-profiler.cpp:568-610 | a list of the report does not depend on the iteration order of the hash table |
| ReportAggregation.FlowsAddUp | synthesized/echo-profiler.cpp:556-582 | for every node after any updates: one entry per flow, summing to the total_count printed beside it, the number of its updates outside warmup |
| ReportAggregation.NodeListExact | synthesized/echo-profiler.cpp:568-579 | each number stands in pkts_per_flow once for every key the node counted so often |
| ReportAggregation.EpochPartition | synthesized/echo-profiler.cpp:588-618 | for every epoch after any updates: the two lists partition its flows and sum to its total_count; in the first epoch all flows are new |
| ReportAggregation.EpochListsExact | synthesized/echo-profiler.cpp:599-618 | the persistent list has the number of occurrences of exactly the keys the epoch before counted too, the other list those of all other keys |
| Profiler.Profiler.NfInit | synthesized/echo-profiler.cpp:695-731 | every known port and the node start at zero |
| Profiler.Profiler.IncFwd | synthesized/echo-profiler.cpp:478-487 | outside warmup the port's counter grows by one, starting at one for an unknown port |
| Profiler.Profiler.NfProcess | synthesized/echo-profiler.cpp:734-739 | outside warmup one packet on the node and one on its device; the device is returned |
| Profiler.Profiler.Warmup | synthesized/echo-profiler.cpp:661-666 | the whole warmup stream is replayed and counts nothing |
| Profiler.Profiler.ReplayAll | synthesized/echo-profiler.cpp:675-679 | the do-while loop processes the packet at hand and all that follow, counts each once and remembers the last timestamp |
| Profiler.Profiler.WorkerMain | synthesized/echo-profiler.cpp:639-684 | fails exactly if no packet is to be measured; else the counters and the elapsed time are those of a full run over the measured captures alone |
| Profiler.PhaseIndices | synthesized/echo-profiler.cpp:644-653 | each of the two lists holds exactly the captures with its flag, in configuration order |
| Profiler.ReplayedCounts | synthesized/echo-profiler.cpp:478-500 | each port's counter grows by the packets of its device, all counters together by the length of the run; drops and floods stay |
| Profiler.RunConservation | synthesized/echo-profiler.cpp:639-684 | the node counter equals all forwarding counters together; a capture not marked warmup and alone on its device among those is delivered whole, in order, and counted there; a device without such a capture delivers and counts nothing; all of it is total_packets exactly if no two captures not marked warmup lose packets to each other |
| Profiler.ElapsedIsSpan | synthesized/echo-profiler.cpp:668-681 | the elapsed time is that from the first packet measured to the last; if every device is in order it is not negative and the span of all timestamps |
| LimiterTrees.Commute | synthesized/cl-f40000-c0-unif-hmax-tput.cpp:833-837 | two table operations that touch none of each other's cells may be swapped in any tree, state and packet |
| LimiterTrees.FactorKeeps | synthesized/cl-f40000-c0-unif-hds-pref-cuckoo.cpp:805-864 | hoisting an operation out of both arms of a branch that does not test it keeps the result of every run of every tree |
| LimiterTrees.FactorShrinks | synthesized/cl-f40000-c0-unif-hds-pref-cuckoo.cpp:805-864 | factoring never leaves more table operations |
| LimiterTrees.GuardInvisible | libsycon/include/sycon/data_structures/guarded_map_table.h:53-79 | a tree that never checks the guard runs the same without one |
| LimiterPrograms.InstallsAgree | synthesized/cl-f40000-c0-unif-hds-pref-cuckoo.cpp:805-864 | factoring the cuckoo arm gives the guarded one, swapping put and borrow the max-tput one, and all three mean the same |
| LimiterPrograms.CuckooMeans | synthesized/cl-f40000-c0-unif-hds-pref-cuckoo.cpp:726-893 | the meaning of the whole handler: unlimited or known flows abort, estimates over 64 abort, others take the least free index and leave on the device's port or are dropped |
| LimiterPrograms.GuardedMeans | synthesized/cl-f40000-c0-unif-hds-pref-guardedmaptable.cpp:726-893 | the same with the guard as a further condition of admission |
| LimiterPrograms.MaxTputMeans | synthesized/cl-f40000-c0-unif-hmax-tput.cpp:725-881 | the same with the sketch's answer for header bytes 12 to 19, source and destination address, as estimate, and a drop over the threshold |
| LimiterTrees.SketchBytes | synthesized/cl-f40000-c0-unif-hmax-tput.cpp:769-778 | the sketch key is the source address followed by the destination address |
| LimiterPrograms.OtherPackets | synthesized/cl-f40000-c0-unif-hds-pref-cuckoo.cpp:726 | the code paths are 4524, 5361 and 3361; packets of others are forwarded untouched |
| LimiterPrograms.NotInstalled | synthesized/cl-f40000-c0-unif-hds-pref-cuckoo.cpp:726-893 | for all three, in plain terms: a device whose first four flag bytes are not zero, or a known key, aborts; a new flow over the threshold or refused by the guard aborts, or is dropped by max-tput |
| LimiterPrograms.InstalledAndSent | synthesized/cl-f40000-c0-unif-hds-pref-cuckoo.cpp:775-864 | for all three: an admitted flow is installed if an index is free, and its packet leaves on the big-endian port of its device, or is dropped if that is 65535 |
| LimiterPrograms.InstalledIs | libsycon/include/sycon/data_structures/guarded_map_table.h:53-77 | installing takes the least free index and puts the flow unless the map is full; a guarded map that this fills turns its guard off |
| LimiterPrograms.CuckooVersusMaxTput | synthesized/cl-f40000-c0-unif-hmax-tput.cpp:769-862 | if the header estimate is the sketch's answer the two differ exactly on new limited flows over 64, where one aborts, the other drops and neither changes a table |
| LimiterPrograms.CuckooVersusGuarded | synthesized/cl-f40000-c0-unif-hds-pref-guardedmaptable.cpp:770-865 | they differ exactly where the guard refuses a new limited flow under the threshold, which aborts without any change |
| LimiterPrograms.CuckooIgnoresGuard | synthesized/cl-f40000-c0-unif-hds-pref-cuckoo.cpp:726-893 | with or without a guard, map and allocator evolve alike under cuckoo |
| LimiterPrograms.OnlyInstallsChangeTables | synthesized/cl-f40000-c0-unif-hds-pref-guardedmaptable.cpp:857-892 | an aborting run leaves map, allocator, guard and vectors as they were; tables change only by installing a new limited flow |
| LimiterPrograms.KeyIsFiveTuple | synthesized/cl-f40000-c0-unif-hds-pref-cuckoo.cpp:742-755 | two packets have the same 13-byte key exactly when ports, addresses and protocol agree |
| LimiterPrograms.HeaderKeyIs | synthesized/cl-f40000-c0-unif-hds-pref-cuckoo.cpp:742-755 | the key is the ports, the two addresses and the protocol, as they stand in the headers |
| LimiterRuns.BijectionExact | synthesized/cl-f40000-c0-unif-hds-pref-cuckoo.cpp:775-864 | flows and allocated indices stay in bijection over every run exactly when the map has room for all indices, or has a guard and any room |
| LimiterRuns.DeployedTables | synthesized/cl-f40000-c0-unif-hds-pref-cuckoo.p4:362 | with the sizes deployed, 65536 usable entries in both tables, bijection and agreement hold over every run |
| LimiterRuns.OverflowLeaks | libsycon/include/sycon/data_structures/map_table.h:58-62 | for every full map, free index and new key: the least free index is taken, the flow is not put and nothing else changes, so a bijection ends there |
| LimiterRuns.IndicesInOrder | libsycon/include/sycon/data_structures/dchain_table.h:68-87 | in every run of every controller the free indices are those from some number on: the smallest were handed out, in order |
| LimiterRuns.IndexIsRank | libsycon/include/sycon/data_structures/dchain_table.h:68-87 | under the condition of BijectionExact, a flow gets as index the number of flows installed before it |
| LimiterRuns.OneIndexPerFlow | synthesized/cl-f40000-c0-unif-hds-pref-guardedmaptable.cpp:742-757 | an installed five-tuple keeps its index, and each later packet of it aborts without touching a table |
| LimiterRuns.GuardedMatchesCuckoo | synthesized/cl-f40000-c0-unif-hds-pref-guardedmaptable.cpp:775-865 | fed the same packets, guarded and cuckoo keep the same map and allocator after every packet: the guard refuses only when no index is left |
| LimiterRuns.AgreeExact | synthesized/cl-f40000-c0-unif-hds-pref-guardedmaptable.cpp:775-865 | that holds over every run exactly when the map has room for every index or no room at all |
| LimiterRuns.MaxTputMatchesCuckoo | synthesized/cl-f40000-c0-unif-hmax-tput.cpp:725-881 | fed the same packets, max-tput and cuckoo keep the same tables after every packet |
| LimiterRuns.VectorsFixed | synthesized/cl-f40000-c0-unif-hds-pref-cuckoo.cpp:113-688 | no run changes the two device vectors |
| LimiterRuns.ForwardedToPeer | synthesized/cl-f40000-c0-unif-hds-pref-cuckoo.cpp:113-688 | from the vectors of nf_init, a packet that does not abort comes from an odd device and leaves through the even one below it; only max-tput drops, and only over the threshold |
| LimiterController.Controller.PutEntry | libsycon/include/sycon/data_structures/guarded_map_table.h:53-77 | ignored when full; filling the map turns the guard off |
| LimiterController.Controller.AllocateNewIndex | libsycon/include/sycon/data_structures/dchain_table.h:68-87 | takes the least free index, fails exactly when there is none |
| LimiterController.Controller.ProcessCuckoo | synthesized/cl-f40000-c0-unif-hds-pref-cuckoo.cpp:712-901 | the step-by-step handler does what its tree does: same tables, verdict and failed assertions |
| LimiterController.Controller.ProcessGuarded | synthesized/cl-f40000-c0-unif-hds-pref-guardedmaptable.cpp:712-901 | the same for the guarded handler |
| LimiterController.Controller.ProcessMaxTput | synthesized/cl-f40000-c0-unif-hmax-tput.cpp:725-889 | the same for the max-tput handler |
| LimiterController.AllIndexes | libsycon/include/sycon/data_structures/dchain_table.h:33-35 | a new allocator has every index free |
| Forwarding.Worker.Classify | dpdk-nfs/nf.c:162-176 | each received buffer is freed or stands in exactly one batch, in order, and the counts are the batch lengths, within capacity |
| Forwarding.RoutedMeaning | dpdk-nfs/nf.c:162-176 | what is routed to an output are the buffers at exactly the positions given that output, in order |
| Forwarding.Worker.FlushPort | dpdk-nfs/nf.c:179-183 | the port transmits the beginning of its batch, as much as there is room for; the loop frees receive entries from the sent count to the batch length |
| Forwarding.Worker.Flush | dpdk-nfs/nf.c:178-185 | all ports transmit, and every count is zero again |
| Forwarding.Worker.PollAll | dpdk-nfs/nf.c:157-187 | over any number of polls, what is freed and what each port transmits |
| Forwarding.RoundsConserve | dpdk-nfs/nf.c:154-187 | when every port takes its batch, the freed buffers are the dropped ones and each port transmits what it was given, both in the order received |
| Forwarding.EveryBufferOnce | dpdk-nfs/nf.c:162-176 | every received buffer is dropped or in exactly one batch, once |
| Forwarding.ShortSendExact | dpdk-nfs/nf.c:178-185 | after any poll every received buffer is transmitted or freed exactly once if and only if each port with a short send had got the whole beginning of the burst |
| Forwarding.ShortSendExample | dpdk-nfs/nf.c:180-183 | two buffers and a port without room: the transmitted buffer is freed |
| IntList.SkipToSeparator | dpdk-nfs/nf-util.c:132-134 | finds the next separator after the number, or runs past the terminator |
| IntList.NextSeparatorIsFirst | dpdk-nfs/nf-util.c:132-134 | no separator is passed over |
| IntList.ParseIntExact | dpdk-nfs/nf-util.c:98-108 | a numeral is parsed exactly if the required character follows it; with anything else behind it the program exits |
| IntList.NoNumberExits | dpdk-nfs/nf-util.c:103-105 | a text that starts with no space, sign or digit exits |
| IntList.LeadingSpace | dpdk-nfs/nf-util.c:100 | white space in front of a number is skipped |
| IntList.NegativeWraps | dpdk-nfs/nf-util.c:100-107 | a negative number is returned as its 64-bit two's complement |
| IntList.ParseIntList | dpdk-nfs/nf-util.c:110-139 | for every base and separator the loop computes ListFrom: values, exit, or reading out of bounds |
| IntList.RoundTripExact | dpdk-nfs/nf-util.c:98-139 | in every base strtoimax takes, a rendered list parses back to itself exactly when the separator is not the terminator, separates each value from the next, and all values fit |
| IntList.Misread | dpdk-nfs/nf-util.c:120-136 | if the separator is a digit where some value but the last is read, or makes a hexadecimal prefix of a lone 0, the list read, if any, is another one |
| IntList.TerminatorRunsAway | dpdk-nfs/nf-util.c:132-135 | with the terminator as separator no input gives a list |
| Addresses.Ipv4RoundTrip | dpdk-nfs/nf-util.c:155-166 | printing any address never truncates and parsing it gives the address back |
| Addresses.Ipv4Octets | dpdk-nfs/nf-util.c:163-164 | the lowest byte of the word is printed and parsed first |
| Addresses.ScanWraps | dpdk-nfs/nf-parse.c:10 | a number that does not fit a byte is cut to its low eight bits |
| Addresses.MacRoundTrip | dpdk-nfs/nf-util.c:141-153 | the same for any six bytes |
| Addresses.MacDigits | dpdk-nfs/nf-util.c:149-150 | the first byte is printed first, each as two hexadecimal digits, with colons between |
| Addresses.DottedReads | dpdk-nfs/nf-parse.c:8-15 | the four conversions read back the bytes printed, at any position |
| Addresses.MacReads | dpdk-nfs/nf-parse.c:3-6 | the six conversions read back the bytes printed, at any position |
| Chunks.Packet.BorrowNextChunk | dpdk-nfs/nf-util.h:97-104 | the chunk starts where the last one ended; the chunks still tile what was read |
| Chunks.Packet.GetIpv4 | dpdk-nfs/nf-util.h:164-176 | returned exactly if bytes 12 and 13 say 0x0800 and 20 bytes are left, counted in 16 bits |
| Chunks.Packet.GetIpv4WithOptions | dpdk-nfs/nf-util.h:178-202 | when header and options are returned, by the bytes of the header; options are (ihl - 5) * 4 bytes; which chunks stay borrowed in each case |
| Chunks.Packet.GetL4 | dpdk-nfs/nf-util.h:204-226 | returned exactly if the protocol field allows it and the bytes are left |
| Chunks.Packet.ReturnAllChunks | dpdk-nfs/nf-util.h:144-149 | exactly the borrowed chunks are returned, last first, and the packet is as received |
| Chunks.Packet.ReturnLast | dpdk-nfs/nf-util.h:151-156 | the last borrowed chunk, if any, is returned, and the packet is read from there again |
| Chunks.ReverseAt | dpdk-nfs/nf-util.h:144-149 | the i-th chunk returned is the i-th from the end |
| Chunks.Packet.InsertNewChunk | dpdk-nfs/lib/util/packet-io.c:57-84 | the packet grows into its headroom, bytes and chunks before the new one move with its start |
| Chunks.Packet.CutLast | dpdk-nfs/lib/util/packet-io.c:37-54 | the last chunk loses bytes at its end, what is before them moves up, and packet and chunks start later |
| Chunks.Packet.ShrinkChunk | dpdk-nfs/lib/util/packet-io.c:23-55 | the last chunk is cut, bytes before the cut move up, and packet and chunks start later |
| Chunks.MoveDown | dpdk-nfs/lib/util/packet-io.c:64-69 | the forward copy loop moves the bytes and changes no others |
| Chunks.MoveUp | dpdk-nfs/lib/util/packet-io.c:37-42 | the backward copy loop moves the bytes and changes no others |
| Chunks.InsertThenShrink | dpdk-nfs/lib/util/packet-io.c:23-84 | inserting a chunk and cutting it to nothing restores bytes and position of the packet |
| Chunks.TilesDisjoint | dpdk-nfs/nf-util.h:97-104 | borrowed chunks are in order, disjoint and within the bytes read |
| Chunks.WalkAndReturn | dpdk-nfs/nf-util.h:144-226 | a whole walk: each header starts where the one before it ends, within the packet, and they come back in reverse |

## Left out

- The Python programs, the synthesis engine, the other compiled network functions (the same three shapes again) and `kvs-*-cuckoo` (empty control path).
- pcap_open_offline failures, unknown link types and out-of-memory: the process exits before the modelled code does anything.
- The capture length of a frame and bytes that a shorter frame leaves in a reused packet buffer: a packet carries the bytes of its own record.
- Floating point: timestamps are given integers (`tv_sec` and `tv_usec` are unsigned in a capture record, hence not negative) and the percentage is an integer division.
- 64-bit wrap-around of the counters `total_packets`, `total_bytes`, `key_counter`, `total_count` and of time stamps; the 32-bit sums `pkt.len + 14` and `pkt.len + 4` do wrap in the model.
- A second call of setup on the same reader; the program makes one.
- PcapReading.PcapReader.GetNextPacket: the enumeration of the pending devices may differ from call to call, which allows more runs than an unordered_map does; RoundRobin and TiedStretches fix the order where that matters.
- EpochStats.MapStats.Update: the Stats objects inside it are stored as values, as the C++ containers own them; each is updated through a Stats object and stored back.
- Profiler.Profiler.WorkerMain: the known ports are a parameter (nf_init lists 0 to 31), the packet bytes are not passed to nf_process, which ignores them, and a failed assertion on the first packet is the result value false. Its generated network function has one node and one forwarding operation; neither drops or floods.
- Epoch updates are not connected to the echo network function, which calls none: they are modelled for every sequence of updates.
- The CRC and the hash functions are parameters; the statements hold for every one of them.
- Writing the report as JSON and choosing its file name.
- Table expiry, time-outs and everything else that removes a flow or an index: runs are runs of packet steps.
- The copies of the tables in switch hardware, and transactions: an aborted packet is one whose run changes no table (proved), so there is nothing to roll back.
- The layout and the byte order of the CPU headers and the bounds checks of packet_consume: a packet has its decoded code path, device (already reduced to 16 bits) and estimate, and enough bytes. The egress device is stated before its conversion to network order.
- The count-min sketch: its answer for each key while a packet is processed is part of the input.
- LimiterRuns.BijectionExact: map capacities are below 2^32, the range of the field.
- The KLEE version of the forwarding loop, FLOOD as an output of it (the loop would index past its batches; outputs are DROP or existing ports), checksums and all of DPDK's set-up.
- Forwarding.Worker.PollAll: a finite number of polls of any devices in any order stands for the endless loop, and a buffer is not received twice in one burst.
- IntList.ParseIntList: `realloc` failures are left out, bases are those strtoimax defines (0 and 2 to 36), and reading past the terminator ends the model with OutOfBounds.
- Addresses.ParseMac: a `0x` prefix that fills the field width of two and leaves no digit does not match.
- Chunks.Packet.InsertNewChunk: demands a borrowed chunk and enough headroom, which the source asserts.
- Chunks.Packet.GetEther: demands the 14 bytes that the source takes for granted.
