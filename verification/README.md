# shred-zdn, modelled in Dafny

shred-zdn is a relay client that sits next to a Solana validator. Its receivers listen on UDP ports for shreds that come from the ZDN relay (`Zdn`) and, optionally, from a reference feed (`Reference`). For each datagram a receiver reads the variant tag that follows the 64-byte signature. It looks up the canonical length of that wire-format variant, hashes only that prefix, and queues the whole datagram twice: once for the processor, and once on the sniffer's side channel.

The processor keeps a two-generation duplicate window (`current`/`preparing`, rotated every 15 s). It drops duplicates and forwards first-seen `Zdn` shreds to every validator address.

The sniffer has its own window. It fills that window from the side channel. It also captures frames on the validator's interface, strips the link, IPv4 and UDP headers, and parses what remains as a shred. Every frame whose payload hash is not in its window is sent back to the nearest relay regions.

Shared atomic counters are read and reset on each report.

At startup, the binary:
- works out the capture offset and filter;
- keeps registering with the server;
- waits for the region map;
- ranks regions by ping latency;
- resolves the send-back addresses of the three nearest regions.

Each module of the model is one file:

- `dedup.dfy`: the window. `Generations` is the value-level specification and `Window` the class with the two maps.
- `receiver.dfy`: the tag classifier and one pass of the receive loop.
- `processor.dfy` and `sniffer.dfy`: each is an event-driven state machine (`Step`/`Run`), with a class whose methods are proved to implement it.
- `stats.dfy`: the counters, with read-and-reset.
- `startup.dfy`: the decision logic in `main.rs`.
- `zdn_ping.dfy`: region ranking and address resolution.
- `utils.dfy` and `async_utils.dfy`: the common helpers.
- `text.dfy`: the few `str` operations used above.
- `net.dfy`: the send record.
- `args.dfy`: `Source`, `Protocol` and the address types.
- `wrappers.dfy`: `Option`/`Result`.

Sockets are modelled as follows. A send is appended to a log (`sent`). A receive is an input (`RecvResult`). A closed channel is an event for its reader. For a writer, whether the receiving end still exists is an input of each send. The keyed hashers, the shred parser, `ping`, DNS resolution and the clock are function-typed parameters or plain inputs.

Notes on the code:

- The receive buffer holds 2048 bytes, so a longer datagram is truncated by `recv_from`. A 64 + 1 + 2000 = 2065-byte datagram is queued as its first 2048 bytes (`Receiver.Truncated`).
- The sniffer drops a frame when the whole frame is not longer than the header offset (`data.len() <= payload_offset`). The check is not applied to what remains after the offset.
- A frame the sniffer cannot parse is logged and dropped. No counter is incremented for it.
- The sniffer's capture path never records a hash in its window. Only side-channel data does.

## Model

| member | source | states |
|---|---|---|
| Stats.PerSource.Add | src/shred_zdn/stats.rs:7-9 | adding to one source's counter raises it by exactly that amount and leaves the other source's counter unchanged |
| Stats.Snapshot.Add | src/shred_zdn/stats.rs:6-12 | a `fetch_add` on one of the eight counters raises that counter only |
| Stats.ZeroIsAllZero | src/shred_zdn/stats.rs:15-23 | the initial snapshot is the only one in which all eight counters are zero |
| Stats.Stats.constructor | src/shred_zdn/stats.rs:15-23 | a new `Stats` holds zero in every counter, and is the one snapshot that does (`ZeroIsAllZero`) |
| Stats.Stats.FetchAdd | src/shred_zdn/stats.rs:7-11 | an increment changes exactly the named counter, by the given amount |
| Stats.Stats.Report | src/shred_zdn/stats.rs:25-33 | the report returns each counter's value from just before the call, and afterwards all eight counters are zero |
| Stats.Stats.Perform | src/shred_zdn/stats.rs:25-33 | any run of increments and reports leaves the counters, and returns the reports, that the `Replay` specification prescribes |
| Stats.ReplayConserves | src/shred_zdn/stats.rs:26-33 | over any run, for each counter: reported values + value still held = starting value + all increments |
| Stats.ReportedAfterFinalDrain | src/shred_zdn/stats.rs:26-33 | when a run ends with a report, the reports add up to the starting value plus every increment made |
| Stats.EndsWithDrainIsZero | src/shred_zdn/stats.rs:26-33 | a run that ends with a report leaves every counter zero |
| Stats.SecondReportIsZero | src/shred_zdn/stats.rs:26-33 | two reports with no increment between them: the first returns the held values, the second all zeros |
| Dedup.Generations.Observe | src/shred_zdn/processor.rs:39-43 | contains-then-insert: a hash absent from `current` is recorded in both generations under its source, and a present one changes nothing; `preparing` stays a sub-map of `current`; no other hash is affected |
| Dedup.Generations.Rotate | src/shred_zdn/processor.rs:62-66 | after a swap-and-clear, `preparing` is empty, the sub-map invariant holds, and no hash becomes a duplicate that was not one before |
| Dedup.Apply | src/shred_zdn/processor.rs:39-66 | one window operation keeps the sub-map invariant |
| Dedup.ApplyAll | src/shred_zdn/processor.rs:39-66 | any sequence of observations and rotations keeps the sub-map invariant |
| Dedup.ObservesKeepDuplicate | src/shred_zdn/processor.rs:39-43 | between rotations a duplicate stays a duplicate, and hitting it again does not refresh it into `preparing` |
| Dedup.FreshSurvivesOneRotation | src/shred_zdn/processor.rs:39-66 | a hash recorded fresh is still a duplicate after any observations and at most one rotation |
| Dedup.DuplicateForOneRotationOnly | src/shred_zdn/processor.rs:39-66 | a newly observed hash is a duplicate for the rest of its generation and the whole next one, and no longer after the second rotation |
| Dedup.Window.constructor | src/shred_zdn/processor.rs:21-22 | both maps start empty |
| Dedup.Window.Contains | src/shred_zdn/processor.rs:39 | `contains_key` on `current` answers exactly whether the hash is a duplicate |
| Dedup.Window.Insert | src/shred_zdn/processor.rs:42-43 | the hash is inserted into both maps under its source, keeping the invariant |
| Dedup.Window.Rotate | src/shred_zdn/processor.rs:63-64 | `mem::swap` then `clear` leaves the maps that `Generations.Rotate` specifies |
| Net.Fanout | src/shred_zdn/processor.rs:48-56 | one send per destination address, in list order, each with the unchanged bytes |
| Receiver.CanonicalLength | src/shred_zdn/receiver.rs:64-73 | a known variant's canonical length is one of 1139, 1164, 1203 and 1228, all longer than the signature; `CanonicalLengthTable` and `CanonicalLengthIgnoresLowNibble` give the full table |
| Receiver.CanonicalLengthTable | src/shred_zdn/receiver.rs:64-73 | top nibbles 0x40/0x60 give 1228, 0x70 gives 1164, 0x80/0x90 give 1203, 0xB0 gives 1139, and every other nibble gives none |
| Receiver.Classify | src/shred_zdn/receiver.rs:58-78 | no tag exactly when the datagram ends at or before byte 64; reserved exactly for the two legacy tag bytes; too short and canonical verdicts carry the table length of the tag, and a canonical prefix lies within the datagram; an unknown variant has no table length. `CanonicalIsBounded` and `VerdictDependsOnCanonicalPrefix` give the bounds and the prefix dependence |
| Receiver.CanonicalLengthIgnoresLowNibble | src/shred_zdn/receiver.rs:64 | only the top four bits of the tag choose the canonical length |
| Receiver.ReservedTagsAreUnknownVariants | src/shred_zdn/receiver.rs:59-73 | the two legacy tag bytes 0x5A and 0xA5 name no known variant either |
| Receiver.CanonicalIsBounded | src/shred_zdn/receiver.rs:58-78 | a valid datagram's canonical length is one of 1139, 1164, 1203, 1228, exceeds 64 and is at most the datagram length; anything shorter than 1139 bytes is never valid |
| Receiver.VerdictDependsOnCanonicalPrefix | src/shred_zdn/receiver.rs:64-80 | two datagrams that agree on the canonical prefix get the same verdict and the same hash, whatever follows the prefix |
| Receiver.LongVariantExample | src/shred_zdn/receiver.rs:41-80 | a datagram of 2065 bytes with tag 0x41 reaches the classifier as its first 2048 bytes, and those are valid with canonical length 1228 |
| Receiver.Truncated | src/shred_zdn/receiver.rs:41-55 | the bytes kept by `recv_from` are a prefix of the datagram: the whole datagram when it fits, and exactly 2048 bytes when it is longer |
| Receiver.Receiver.constructor | src/shred_zdn/receiver.rs:33-40 | a receiver starts with its source, hasher and counters, and with nothing queued |
| Receiver.Receiver.OnRecv | src/shred_zdn/receiver.rs:45-82 | a recv error exits with 1; would-block or an empty datagram changes nothing; every other datagram counts one packet and then either stops (no tag byte), counts one invalid (reserved tag, unknown variant, too short), or is sent unmodified to both channels with the hash of its canonical prefix. A send on a channel whose receiving end is gone delivers nothing and panics: the pass panics exactly when a valid datagram meets a closed channel, and the side-channel send is reached only when the processor send succeeded |
| Receiver.StartReceivers | src/shred_zdn/receiver.rs:20-40 | one fresh receiver for the relay port, a second for the reference port exactly when one is configured, all sharing the one hasher and the one set of counters, with nothing queued |
| Processor.Step | src/shred_zdn/processor.rs:33-66 | one event keeps the window invariant |
| Processor.Run | src/shred_zdn/processor.rs:29-69 | any event sequence keeps the window invariant |
| Processor.DuplicateIsDropped | src/shred_zdn/processor.rs:34-41 | a duplicate changes nothing except that its processing time is added to `nanos` |
| Processor.NewItemIsRecorded | src/shred_zdn/processor.rs:42-58 | a new hash is recorded in both generations and counted as first-seen for its source; it is forwarded to every validator address, with `forwarded` and `counter` each raised by one, exactly when its source is `Zdn` |
| Processor.RunWindow | src/shred_zdn/processor.rs:39-66 | the window evolves by exactly the observations and rotations that the events carry |
| Processor.ForwardedMatchesCounter | src/shred_zdn/processor.rs:46-58 | over any run, `forwarded` and `counter` rise by the same amount, failed sends included |
| Processor.ForwardingAccounts | src/shred_zdn/processor.rs:46-58 | over any run the sends only grow, by the number of validator addresses for each increment of `counter` (`Accounted`) |
| Processor.AccountedChains | src/shred_zdn/processor.rs:46-58 | the per-packet accounting of two consecutive stretches of a run adds up to that of the whole |
| Processor.StepAccounts | src/shred_zdn/processor.rs:46-58 | one event forwards zero or one shred and accounts for it in `counter`, `forwarded` and the sends |
| Processor.LaterCopyIsDropped | src/shred_zdn/processor.rs:39-66 | after a hash is first processed, a later item with that hash from either source, within at most one rotation tick, is neither counted nor forwarded |
| Processor.ReferenceFirstSuppressesZdn | src/shred_zdn/processor.rs:39-59 | a reference item seen first stops a later ZDN item with the same hash from being forwarded within that window; both receivers hash with the one shared hasher (`Receiver.StartReceivers`), so the same canonical prefix gives the same hash whichever port it arrives on |
| Processor.SameItemTwice | src/shred_zdn/processor.rs:39-58 | the same item twice in one generation gives exactly one first-seen increment and at most one forward |
| Processor.Processor.constructor | src/shred_zdn/processor.rs:21-27 | the processor starts with an empty window, counter zero and no sends |
| Processor.Processor.ForwardToAll | src/shred_zdn/processor.rs:48-56 | the send loop appends one send per validator address, in order |
| Processor.Processor.OnEvent | src/shred_zdn/processor.rs:30-67 | the in-place maps, counters and sends change exactly as `Step` specifies |
| Processor.Processor.RunEvents | src/shred_zdn/processor.rs:29-69 | the loop over events changes the state exactly as `Run` specifies |
| Sniffer.Initial | src/shred_zdn/sniffer.rs:28-30 | the task starts with an empty window that satisfies the invariant |
| Sniffer.Step | src/shred_zdn/sniffer.rs:74-165 | one event keeps the window invariant |
| Sniffer.Run | src/shred_zdn/sniffer.rs:74-166 | any event sequence keeps the window invariant |
| Sniffer.EmptySideChannelIgnored | src/shred_zdn/sniffer.rs:79-86 | an empty side-channel message changes nothing |
| Sniffer.SideChannelRecordsIfAbsent | src/shred_zdn/sniffer.rs:79-85 | a non-empty side-channel message records the hash of all its bytes under `Zdn`, changes the window exactly when that hash was absent, and sends nothing |
| Sniffer.JudgeFrame | src/shred_zdn/sniffer.rs:99-112 | a frame is too short exactly when it is not longer than the offset; it is sent back exactly when it is longer, its post-header bytes parse, and the parsed payload's hash is not in `current`; what is sent back is exactly the bytes after the offset |
| Sniffer.DroppedFrameChangesNothing | src/shred_zdn/sniffer.rs:99-112 | a frame not longer than the offset, one that does not parse, or one whose payload hash is in `current` changes nothing |
| Sniffer.NovelFrameIsSentBack | src/shred_zdn/sniffer.rs:103-136 | a frame with a novel parsed payload is counted once, and its post-header bytes, not the parsed payload, go to every relay address |
| Sniffer.CaptureLeavesWindow | src/shred_zdn/sniffer.rs:95-147 | the capture path never writes to the window |
| Sniffer.SameFrameSentBackTwice | src/shred_zdn/sniffer.rs:106-136 | because capture records nothing, the same novel frame captured twice is sent back twice |
| Sniffer.StatsTickResetsCount | src/shred_zdn/sniffer.rs:157-164 | a stats tick logs the running send-back count and resets it to zero, changing nothing else |
| Sniffer.StoppedIgnoresEverything | src/shred_zdn/sniffer.rs:87-90 | once a channel has closed and the loop has ended, no event changes anything |
| Sniffer.SendBackAccounts | src/shred_zdn/sniffer.rs:114-164 | over any run, every frame counted (already logged or still pending) produced exactly one send per relay address |
| Sniffer.StepSendsBack | src/shred_zdn/sniffer.rs:114-164 | one event sends back zero or one frame and accounts for it in the count |
| Sniffer.Sniffer.constructor | src/shred_zdn/sniffer.rs:21-31 | the task starts with its settings, an empty window, a zero count and no sends |
| Sniffer.Sniffer.SendBack | src/shred_zdn/sniffer.rs:117-136 | the send loop appends one send per relay address, in order, with the post-header bytes |
| Sniffer.Sniffer.OnEvent | src/shred_zdn/sniffer.rs:75-164 | the in-place maps, count, sends and log change exactly as `Step` specifies |
| Sniffer.Sniffer.RunEvents | src/shred_zdn/sniffer.rs:74-166 | the loop over events changes the state exactly as `Run` specifies |
| Startup.HeaderLength | src/main.rs:53-60 | link type 1 gives 14, any other gives 4, and the warning is logged exactly for link types other than 0 and 1 |
| Startup.PayloadOffset | src/main.rs:61 | the capture offset is 42 exactly for Ethernet and 32 for every other link type |
| Startup.PayloadOffsetSkipsHeaders | src/main.rs:61 | the offset (42 for Ethernet, 32 otherwise) lands on the first byte after an expected link header, a 20-byte IPv4 header and the 8-byte UDP header |
| Startup.PcapFilter | src/main.rs:62-66 | the filter starts with the three-letter protocol name followed by " dst port ", and the port follows |
| Startup.PcapFilterRoundTrip | src/main.rs:62-66 | the filter is "udp" or "tcp", then " dst port ", then the decimal port, and the port can be read back |
| Startup.PcapFilterInjective | src/main.rs:62-66 | different protocols or ports give different filters |
| Startup.ExitCode | src/main.rs:124-136 | "ipv6" means exit 1, otherwise "auth_key" exit 2, otherwise "limit" exit 3, and any other message no exit |
| Startup.LastCarrier | src/main.rs:111-121 | the last of the first `n` rounds whose response carried a non-empty map, with no such round after it; -1 when there is none |
| Startup.LatestMapSource | src/main.rs:111-121 | after the first `n` rounds the region map is empty exactly when no response among them carried a non-empty map; otherwise it is the map of the last response that carried one |
| Startup.FirstRegistration | src/main.rs:106-109 | the first round whose response succeeded for a region other than "request-region", with no such round before it; the round count when there is none |
| Startup.RegisterLoop | src/main.rs:88-149 | the loop stops exactly at the first fatal error status, with its exit code. `is_registered` becomes true exactly after a successful response for a region other than "request-region". "Registered" is logged at most once, at the first such round. The region map is `LatestMap` of the rounds run. "No recent shreds" is logged in exactly the rounds where the counter did not move |
| Startup.AwaitRegionMap | src/main.rs:154-162 | the wait ends at the first non-empty reading of the map |
| Startup.ChooseRegions | src/main.rs:169-179 | it panics exactly when no region answered the ping. The ranking holds every region that answered, each once. Otherwise it writes back the first ranked region, whose latency is minimal and equal to the latency of `find_nearest_region`'s choice, and the send-back addresses are those of the first three ranked regions, three distinct regions when three answered |
| ZdnPing.Measure | src/shred_zdn/zdn_ping.rs:35-41 | only regions that answered are pushed, each with its own latency, and every region that answered is pushed |
| ZdnPing.MeasureDistinct | src/shred_zdn/zdn_ping.rs:35-41 | when every region is pinged once, no region is pushed twice |
| ZdnPing.FirstMinimal | src/shred_zdn/zdn_ping.rs:22-27 | `min_by_key` picks a measurement of least latency, the first one on ties |
| ZdnPing.FindNearestRegion | src/shred_zdn/zdn_ping.rs:10-28 | `None` exactly when no host answered; otherwise a region that answered and whose latency is no greater than any other that did |
| ZdnPing.SortByLatency | src/shred_zdn/zdn_ping.rs:46 | after the in-place sort, the measurements are a permutation of the input, in non-decreasing latency |
| ZdnPing.PermutedMeasurements | src/shred_zdn/zdn_ping.rs:46-50 | reordering the measurements keeps every region's latency and every region |
| ZdnPing.PermutationKeepsDistinctRegions | src/shred_zdn/zdn_ping.rs:46 | sorting (any reordering) of measurements of distinct regions keeps the regions distinct |
| ZdnPing.Regions | src/shred_zdn/zdn_ping.rs:47-50 | dropping the latencies keeps the regions in order |
| ZdnPing.SortRegions | src/shred_zdn/zdn_ping.rs:31-51 | the result holds exactly the regions (all keys of the map) whose ping produced a latency, each exactly once, in non-decreasing order of latency |
| ZdnPing.RegionAddrs | src/shred_zdn/zdn_ping.rs:58-84 | every address of a region is on port 8002; a region missing from the map, or one that does not resolve, has none |
| ZdnPing.ResolvedAddrsPort | src/shred_zdn/zdn_ping.rs:58-93 | every resolved send-back address is on port 8002 |
| ZdnPing.ResolvedAddrsAppend | src/shred_zdn/zdn_ping.rs:61-74 | the addresses of a concatenation of region lists are the concatenation of their addresses, in order |
| ZdnPing.UnresolvedRegionContributesNothing | src/shred_zdn/zdn_ping.rs:63-90 | a region missing from the map or failing to resolve contributes nothing and does not disturb the other regions' addresses |
| ZdnPing.ResolvedAddrsOrigin | src/shred_zdn/zdn_ping.rs:63-74 | every address comes from a resolved IP of the host of one of the considered regions |
| ZdnPing.ResolveNearestNRegionAddrs | src/shred_zdn/zdn_ping.rs:53-94 | the result is the in-order concatenation of the addresses of the first `n` ranked regions, and only those |
| ZdnPing.AvgField | src/shred_zdn/zdn_ping.rs:108-113 | the field taken from a line contains neither '/' nor '=' |
| ZdnPing.AvgFieldIsSecondStat | src/shred_zdn/zdn_ping.rs:108-113 | a line has a field exactly when it has an '=' and the trimmed text after the first '=' contains a '/'; the field is then the text after the first '/' of that trimmed text, up to the next '/' or the end |
| Text.SplitHasSecondPiece | src/shred_zdn/zdn_ping.rs:108-111 | `split` yields at least two pieces exactly when the separator occurs |
| Text.SecondPiece | src/shred_zdn/zdn_ping.rs:110-112 | the second piece of a `split` is what lies between the first separator and the next one or the end |
| Text.TrimIsInfix | src/shred_zdn/zdn_ping.rs:110 | `trim` returns an infix of its argument with only whitespace before and after it |
| ZdnPing.FirstAvgLine | src/shred_zdn/zdn_ping.rs:105-117 | the index of the first line that mentions "rtt" or "round-trip" and has an '=' followed by at least two '/'-fields; no earlier line qualifies; it is the line count when there is no such line |
| ZdnPing.AvgLatencyField | src/shred_zdn/zdn_ping.rs:105-117 | the field read from the output contains neither '/' nor '=', and it is the `AvgField` of a qualifying line with no qualifying line before it |
| ZdnPing.AvgLatencyFieldNone | src/shred_zdn/zdn_ping.rs:105-117 | there is no field exactly when no line mentions "rtt" or "round-trip" with an '=' followed by at least two '/'-fields |
| ZdnPing.FirstAvgLineUnique | src/shred_zdn/zdn_ping.rs:105-117 | a qualifying line with no qualifying line before it is the one the scan stops at |
| ZdnPing.PingAvgLatency | src/shred_zdn/zdn_ping.rs:98-118 | the scan with early return gives exactly the parsed value of `AvgLatencyField` over the output's lines, or none |
| ZdnPing.LineAvgField | src/shred_zdn/zdn_ping.rs:105-113 | the per-line test of the scan finds a field exactly when the line qualifies, and then it is that line's second '/'-field after the '=' |
| ZdnPing.NoSummaryLineMeansNoLatency | src/shred_zdn/zdn_ping.rs:105-117 | output in which no line mentions "rtt" or "round-trip" yields no latency |
| Utils.LastNChars | src/common/utils.rs:40-43 | it panics exactly when the byte offset `len - n` (saturating) is not a character boundary; otherwise the result is the suffix of length `min(n, len)` bytes |
| Utils.LastNCharsEnds | src/common/utils.rs:42 | asking for at least the whole string returns it; asking for 0 returns the empty string |
| Utils.LastNCharsOnAsciiNeverPanics | src/common/utils.rs:42 | on ASCII text the slice never panics |
| Utils.LastNCharsCountsBytes | src/common/utils.rs:41-43 | "é" with n = 1 panics, and "aé" with n = 2 yields only "é" |
| Utils.LastNCharsOfText | src/common/utils.rs:40-43 | the last `min(n, len)` characters: a suffix, the whole text when `n >= len`, empty when `n == 0` |
| Utils.LastNCharsAgreesOnAscii | src/common/utils.rs:41-43 | on ASCII bytes, where each byte is a character, the byte slice never panics and equals the last `n` characters |
| Utils.DiffTime | src/common/utils.rs:55-63 | when `start < stop`, the whole microseconds from start to stop (non-negative, truncated); otherwise the negated whole microseconds from stop to start |
| Utils.DiffTimeAntisymmetric | src/common/utils.rs:55-63 | swapping the instants negates the result; equal instants give 0 |
| Utils.DiffTimeBelowResolution | src/common/utils.rs:55-63 | instants less than a microsecond apart, in either order, give 0 |
| Utils.CurrentNs | src/common/utils.rs:46-52 | below 10^9 and congruent to the epoch nanoseconds modulo 10^9; a clock before the epoch panics |
| Utils.CurrentNsIgnoresWholeSeconds | src/common/utils.rs:46-52 | adding whole seconds to the clock does not change the reading |
| AsyncUtils.Pause | src/common/async_utils.rs:20-23 | the pause after failed attempt `c` is `delay[c]` while the list lasts and its last entry after that; zero when the list is empty and the index wrapped |
| AsyncUtils.Retry | src/common/async_utils.rs:4-26 | attempts are numbered 0, 1, 2, … in order, at most `retries + 1` of them. Every attempt but the last failed, and the last attempt's result is returned: the first `Ok`, or the `Err` of attempt `retries`. Each failure but the last is followed by its scheduled pause. With checked arithmetic it panics exactly when the list is empty, a retry is allowed and attempt 0 fails |

## Left out

- Socket I/O: `send_to` results and errors and `recv_from` error kinds. A send is a log entry, and a receive is an input with the three outcomes the loop distinguishes.
- Concurrency. The tokio tasks, `select!`, the unbounded channels, `spawn`/`join_all`, the pcap thread and the `RwLock`s are left out. Each task is a sequential event stream. How the events of different tasks interleave is not modelled.
- Sniffer.Sniffer.SendBack: the concurrent sends are modelled as sequential, in address order. Their real order is not captured.
- The keyed `ahash` hashers and the shred parser (`Shred::new_from_serialized_shred`, `payload()`) are foreign code. They are function parameters. That side-channel and capture hashes differ for the same shred is not modelled.
- Instant-based timing: the measured processing time is an input of each processor item. The float `ms` formatting and the text of the report line are not modelled.
- The pcap device setup, the `ping` command, the `f64` parse and rounding of the average, DNS `to_socket_addrs`, and the `rayon` `par_iter`. These are external processes, floating point and parallelism. They become parameters: `ping`, `resolve`, `parseMs`, and the push order `order`.
- ZdnPing.SortByLatency: does not state stability. `sort_by_key` is stable and the insertion sort keeps equal elements in order, but no contract says so.
- Startup.RegisterLoop: runs over a finite list of rounds. The region of each round is an input, because the main thread writes it concurrently. The gRPC call and `generate_channel` are reduced to their three outcomes.
- Startup.AwaitRegionMap: the 300 ms polling loop is a finite list of readings. A map that never fills is `None` rather than an endless wait.
- Stats.Stats.FetchAdd: counters are unbounded. The `usize`/`u64` wrap-around of a counter that overflows is not modelled.
- `lerp_duration` (f32), `time_to_string` (chrono) and `init_env_logger` are left out: floating point, library formatting and logging setup.
- src/common/net_utils/tonic.rs and src/common/net_utils/request.rs are left out: thin builder wrappers over network libraries.
- src/common/macro.rs and src/lib.rs are left out. src/shred_zdn/args.rs is reduced to its `Source` and `Protocol` enums.
- The final stats loop in `main` (a report every 10 s) is left out. It is `Stats.Stats.Report` called repeatedly, which is what `Stats.Stats.Perform` covers.

## Findings

| source | as written | input that shows it | evidently intended | confidence | as-written member | corrected member |
|---|---|---|---|---|---|---|
| src/common/utils.rs:41-43 | `last_n_chars` slices the UTF-8 bytes from `len - n`: it keeps the last `n` bytes and panics when that offset falls inside a multi-byte character | `s = "é"` (bytes C3 A9), `n = 1`: the slice starts at byte 1, inside the character, and panics; `s = "aé"`, `n = 2` yields "é", one character | the last `min(n, len)` characters, never panicking | not executed | Utils.LastNCharsCountsBytes | Utils.LastNCharsOfText |
