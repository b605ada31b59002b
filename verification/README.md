# Middleware benchmark protocols: a verified model

The repository compares publish/subscribe middleware. Most of it drives external stacks; four parts
carry logic of their own, and this project models those and proves what they are for.

1. **User-space fragmentation** (`vsomeip/bench`). A frame is planned into chunks, chunk headers and a
   time stamp are written into one shared block, the block is sliced and notified, and a tracker with
   four fields follows the arrivals. `Fragment`, `Publisher`, `LossyRun`, `Exactness`, `Reassembly`,
   `Soundness`, `Client` and `EndToEnd` go from the planning arithmetic and the bytes to the printed gap and sample
   counts, over every loss pattern of a whole run.
2. **Credit-limited publishing between two threads** (`RunMtOneWay`, three copies in `benchmarks`).
   `Credit` has one step per atomic access, all interleavings, spurious compare-and-swap failures,
   drops and unreadable samples; `CreditAtomic` refines the retry loop to one atomic step.
3. **Request/response matching.** `Stamp` and `Rpc` model the echo calls, `PingPong` the paced
   ping-pong of `benchmarks/net`, `LinkedPingPong` the single-process one of the Zenoh benchmark; all over networks that delay, duplicate, reorder and lose.
4. **Statistics and the snapshot page.** `Percentile` over the reals; `Snapshot`, `Comparison`,
   `SizeLabel` and `Chart` for keep-newest, pairing and label alignment, on the stable sort of `Sorting`.

`Bytes` (machine integers, little-endian images, copies into an array) and `Folds` (running a state
machine over its inputs) are shared. Code that changes state in place is modelled in place: the block
is an array that `WriteChunkHeaders`, `StampSendNs`, `StampPayload` and `Worker` update, and
`FrameTracker`, `EventClient` and `EchoClient` are classes. Each method is tied to a function of the
old state, and the theorems are about that function. Threads are state machines over their steps.

Main results:

- `LossyRun.LossyRunExact`: under every loss pattern the tracker reports exactly the frames that lost no
  chunk; `Exactness.ExactIffUsable` gives the exact condition, over all plans of an accepted frame.
- `Reassembly.TrackerRefinesReassembler` and `Reassembly.ReportSound`: the constant-space tracker makes
  the reports of a full reassembler on any bytes, and under reordering, duplication and loss each report
  stands for the publisher's block, byte for byte. `Soundness.SoundIff` gives the exact condition.
- `EndToEnd.GapsEndToEnd`, `EndToEnd.SamplesEndToEnd`, `EndToEnd.DoneEndToEnd` and `EndToEnd.DoneNoEarlier`:
  what the subscriber prints, at whatever moment, and when it is done, in terms of frames lost.
- `Credit.CreditSafety`, `Credit.WritesIffCreditLeft`, `CreditAtomic.LoopRefinesAtomicDecrement`.
- `Rpc.RpcSafety`, `Rpc.LateAnswerIgnored`, `PingPong.SamplesAreFresh`, `LinkedPingPong.SamplesAreFresh`.
- `Percentile.PercentileMonotone`, `Comparison.SnapshotPairsNewest`, `Chart.ChartLines`.

Where the code and its words disagree:

- The comment at `vsomeip/bench/fragment.h:31` (no chunk smaller than size/count) holds of the exact
  quotient if and only if the count divides the size (`Fragment.EvenIffDivides`), and of C++'s truncated
  one if and only if the remainder is 0 or count - 1 (`Fragment.EvenIffNearMultiple`); 17 bytes in chunks
  of 5 end with 2 (`Fragment.ShortLastChunk`). `Fragment.PlanShape` gives the true bound.
- Over all plans of an accepted frame the protocol works exactly when three conditions hold
  (`Exactness.ExactIffUsable`): at most 65535 chunks, a first chunk of 16 bytes unless the frame is not
  split, and a last chunk of 8 bytes. The planner does not guarantee the last one: 751 bytes over
  datagrams of 43 make 25 chunks of 31, the last of 7 (`Fragment.ShortTailPlan`). There the header copy
  runs past the block (`Fragment.HeaderWritesInside`) and the frame is never reported, even without
  loss (`Exactness.ShortTailNeverReported`, `Exactness.PlannedShortTail`).
- The gap counter starts only after the first reported frame other than frame 0 and ends with the last
  one, so it is the number of frames a run lost only under the condition of `Client.GapsCompleteIff`.
- A take that overtakes the increment leaves a credit behind (`Credit.RaceLosesACredit`), at most once
  in a run, which is why the limit of two holds and still never wedges under lossless delivery.
- A negative warm-up count disables measuring (`Client.NegativeWarmupNeverMeasures`) and makes the
  ping-pong print a different number of samples (`PingPong.PrintedCount`).
- An older row can hide a newer one in the summary table when one size is spelled in two ways
  (`Comparison.OlderRowHidesNewer`); `Comparison.NewestShownIff` is the exact condition.

## Model

| member | source | states |
|---|---|---|
| `Bytes.LeRoundTrip` | vsomeip/bench/fragment.h:42-43 | storing an integer in n bytes and loading it gives it back exactly when it fits |
| `Bytes.ByteWeight` | vsomeip/bench/fragment.h:67 | byte k of a load weighs 256 to the k |
| `Bytes.CopyInto` | vsomeip/bench/fragment.h:43 | a copy into the block changes the target range and nothing else |
| `Bytes.ByteSplit` | vsomeip/bench/event_service.cc:103 | the byte conversion and shift are remainder and quotient by 256 |
| `Bytes.Wrap16IsRemainder` | vsomeip/bench/fragment.h:42 | the uint16 conversion is the remainder by 2^16 |
| `Bytes.Low32IsRemainder` | vsomeip/bench/event_client.cc:165 | the uint32 conversion is the remainder by 2^32 |
| `Bytes.Wrap64IsRemainder` | vsomeip/bench/event_client.cc:118 | the unsigned 64-bit difference is the remainder by 2^64 |
| `Fragment.DivIsQuotient` | vsomeip/bench/fragment.h:35-36 | the unsigned division is the integer quotient |
| `Fragment.PlanTraps` | vsomeip/bench/fragment.h:32-38 | planning divides by zero exactly for an empty frame, no room beyond the E2E header, or a wrapped numerator |
| `Fragment.PlanShape` | vsomeip/bench/fragment.h:26-38 | the chunks cover the frame, each fits its datagram beside the 12-byte E2E header, the last is at most count - 1 bytes short, and a budget of 31 lets chunk 0 carry the stamp |
| `Fragment.PlanFewest` | vsomeip/bench/fragment.h:35 | no split into parts that fit the datagram has fewer parts |
| `Fragment.EvenIffDivides` | vsomeip/bench/fragment.h:31-36 | no chunk is smaller than the exact quotient size / count if and only if count divides size |
| `Fragment.EvenIffNearMultiple` | vsomeip/bench/fragment.h:31-36 | no chunk is smaller than the truncated quotient if and only if the size is a multiple of count or one short of it |
| `Fragment.ShortLastChunk` | vsomeip/bench/fragment.h:31-36 | a concrete plan that contradicts the comment |
| `Fragment.ShortTailPlan` | vsomeip/bench/fragment.h:32-38 | a concrete plan whose last chunk is too short for a chunk header |
| `Fragment.HeaderWritesInside` | vsomeip/bench/fragment.h:41-44 | all header copies stay inside the block if and only if the last chunk holds a header |
| `Fragment.PlanUsable` | vsomeip/bench/fragment.h:31-45 | with a budget of 31 a plan meets the protocol's demands if and only if the last chunk holds a header and the count fits 16 bits |
| `Fragment.HeaderLayout` | vsomeip/bench/fragment.h:16-20 | seq in bytes 0 to 4, index in 4 to 6, count in 6 to 8 |
| `Fragment.HeaderRoundTrip` | vsomeip/bench/fragment.h:16-20 | the packed header decodes to the fields it was made of |
| `Fragment.WriteChunkHeaders` | vsomeip/bench/fragment.h:40-45 | for every plan, the whole block afterwards: one header image per chunk start over the old contents, cut where the block ends |
| `Fragment.StampSendNs` | vsomeip/bench/fragment.h:47-49 | the whole block afterwards: eight stamp bytes over the old contents |
| `Fragment.BlockLayout` | vsomeip/bench/fragment.h:40-49 | every header that fits stands where its chunk starts, the stamp right after the first, no one overwrites another, and every other byte is unchanged |
| `Fragment.NoResidue` | vsomeip/bench/event_service.cc:106-110 | publishing a frame over the previous one leaves nothing of the previous headers or stamp |
| `Fragment.ChunksPartition` | vsomeip/bench/event_service.cc:112-115 | the slices are non-empty and joined in order they are the block |
| `Fragment.SliceDecodes` | vsomeip/bench/event_service.cc:109-115 | a slice long enough for a header decodes to (seq, i, count), slice 0 also to the stamp |
| `Fragment.FrameTracker.constructor` | vsomeip/bench/fragment.h:90-93 | a new tracker follows no frame |
| `Fragment.FrameTracker.Ingest` | vsomeip/bench/fragment.h:59-87 | the four fields and the result after one arrival; an arrival too short for a header changes nothing |
| `Publisher.PublishableIff` | vsomeip/bench/event_service.cc:97-101 | the loop's model asks no more of a frame the service accepts than that planning does not divide by zero and the frame count is an int |
| `Publisher.FillBlock` | vsomeip/bench/event_service.cc:101-104 | byte j of the fresh block is j * 131 mod 256 |
| `Publisher.FrameBlockFill` | vsomeip/bench/event_service.cc:101-110 | every byte of a published block that is neither header nor stamp is j * 131 mod 256 |
| `Publisher.StampFrame` | vsomeip/bench/event_service.cc:109-110 | the shared block is always the initial fill under the current frame's headers and stamp |
| `Publisher.SendFrame` | vsomeip/bench/event_service.cc:112-126 | the payloads of a frame: hole, then slice, chunk by chunk |
| `Publisher.PublishedAt` | vsomeip/bench/event_service.cc:106-126 | payload i of frame f stands at f * count + i and carries that slice of that frame's block behind the hole |
| `Publisher.Worker` | vsomeip/bench/event_service.cc:95-133 | everything a run notifies; for tcp one whole payload a frame, for udp no payload over hole + datagram - 12 and no split of the frames that fits needs fewer; warm-up plus count frames |
| `LossyRun.FrameChunksParse` | vsomeip/bench/event_service.cc:112-126 | what is sent for a frame carries that frame's headers and stamp behind the hole; all but the last chunk do for every plan |
| `LossyRun.FrameRun` | vsomeip/bench/fragment.h:59-87 | for every pattern of losses within one frame: a report if and only if all chunks arrived, and otherwise a tracker that accepts no more of it |
| `LossyRun.WholeRun` | vsomeip/bench/fragment.h:59-87 | induction over the frames of a run: reports so far, and no later frame in progress |
| `LossyRun.LossyRunExact` | vsomeip/bench/fragment.h:56-87 | for every loss pattern of a run the reports are exactly the surviving frames, once each, in send order, with the publisher's stamp |
| `Exactness.ShortFirstChunk` | vsomeip/bench/fragment.h:69-71 | a split frame whose chunk 0 cannot hold a stamp is never reported, even without loss |
| `Exactness.TooManyChunks` | vsomeip/bench/fragment.h:42 | when the count wraps in 16 bits, losing the tail still gives a report |
| `Exactness.ShortTailNeverReported` | vsomeip/bench/fragment.h:61-63 | a frame whose last payload cannot hold a header is never reported, even without loss |
| `Exactness.PlannedShortTail` | vsomeip/bench/fragment.h:32-87 | a planned frame for which the protocol fails that way |
| `Exactness.ExactIffUsable` | vsomeip/bench/fragment.h:32-87 | over every plan of an accepted frame: exact reporting under all loss patterns if and only if count < 65536, an unsplit frame or a first chunk of 16 bytes, and a last chunk of 8 bytes |
| `Reassembly.TrackerRefinesReassembler` | vsomeip/bench/fragment.h:56-94 | on any arrivals the tracker makes the reports of a receiver that stores every part |
| `Reassembly.AssemblyInvariant` | vsomeip/bench/fragment.h:59-87 | the parts in progress are the latest well-formed bodies, in order, of one seq |
| `Reassembly.ReportMadeOf` | vsomeip/bench/fragment.h:61-86 | what a report means on arbitrary bytes |
| `Reassembly.ReportSound` | vsomeip/bench/fragment.h:59-87 | for every plan whose count fits 16 bits or whose chunks are under 16 bytes, under reordering, duplication and loss: a report means the latest arrivals were chunks 0..count-1 of that frame, joined they are the block, and the time is its stamp; for any hole size and both transports |
| `Soundness.EarlyReportUnsound` | vsomeip/bench/fragment.h:42 | otherwise the front of a frame alone is reported as a frame |
| `Soundness.SoundIff` | vsomeip/bench/fragment.h:40-87 | over every plan of an accepted frame: all reports sound if and only if count < 65536 or the chunks are under 16 bytes |
| `Client.EventClient.constructor` | vsomeip/bench/event_client.cc:252-266 | empty books and an idle tracker |
| `Client.EventClient.OnMessage` | vsomeip/bench/event_client.cc:111-135 | tracker, gaps, samples and done flag after one notification; the sample added is the 64-bit difference of arrival and stamp over 1000 |
| `Client.Subscribe` | vsomeip/bench/event_client.cc:98-135 | the object run over the arrivals holds what the theorems speak of |
| `Client.ReceiveIsAccounts` | vsomeip/bench/event_client.cc:98-135 | tracker and books run together are the books over the tracker's reports |
| `Client.GapsCountMissing` | vsomeip/bench/event_client.cc:121-124 | the gap count is the number of unreported frames from the first report other than frame 0 to the last, equally the length of that range less its reports |
| `Client.GapsCompleteIff` | vsomeip/bench/event_client.cc:121-124 | it counts all frames the run lost if and only if frames 0, 1 and the last were reported |
| `Client.SamplesConserved` | vsomeip/bench/event_client.cc:126-130 | samples plus missing frames from warm-up on add up |
| `Client.DoneIffNothingMissing` | vsomeip/bench/event_client.cc:126-134 | samples plus missing is count, and done holds if and only if none is missing |
| `Client.DoneOnFinalFrame` | vsomeip/bench/event_client.cc:131-134 | done becomes true on the final frame, no earlier |
| `Client.NegativeWarmupNeverMeasures` | vsomeip/bench/event_client.cc:126-128 | the cast makes a negative warm-up count unreachable |
| `EndToEnd.SurvivorsAreReports` | vsomeip/bench/fragment.h:56-87 | a report is made exactly when its frame survived, with its stamp and the arrival time of its last chunk |
| `EndToEnd.GapsEndToEnd` | vsomeip/bench/event_client.cc:113-124 | for every loss pattern and at whatever chunk the count is printed: it is the number of frames not got through between the first, other than frame 0, and the last that had, and 0 when there is none |
| `EndToEnd.SamplesEndToEnd` | vsomeip/bench/event_client.cc:113-134 | for every loss pattern, at any chunk, with the subscriber's own options: the samples are, in frame order, for each frame from its warm-up on that got through, the time from its stamp to the arrival of its last chunk in microseconds; samples and the other frames add up; done if and only if there are count of them |
| `EndToEnd.MeasuredSamples` | vsomeip/bench/event_client.cc:117-130 | the measured latencies of the reports are those times of the surviving frames |
| `EndToEnd.SurvivedByThen` | vsomeip/bench/fragment.h:56-87 | a frame has got through by chunk k exactly when it loses none and its last chunk is out |
| `EndToEnd.DoneEndToEnd` | vsomeip/bench/event_client.cc:126-134 | with equal frame counts on both sides: samples plus frames not got through is count, and done if and only if every frame after warm-up got through |
| `EndToEnd.DoneNoEarlier` | vsomeip/bench/event_client.cc:131-134 | for every loss pattern the subscriber is not done before the final frame's last chunk arrives |
| `Credit.StepKeepsCredit` | benchmarks/cyclone_bench.cc:347-402 | every step of either thread keeps credit conservation and the bounds |
| `Credit.StepKeepsStop` | benchmarks/cyclone_bench.cc:348-404 | after stop at most one further sample is written |
| `Credit.CreditSafety` | notes/benchmarks.md:131 | in every reachable state credits are conserved, in_flight and the unconsumed samples stay within 2, the loop's cur never exceeds in_flight, and a skip falls due only while no credit is lost |
| `Credit.LosslessLosesByRaceOnly` | benchmarks/subspace_bench.cc:282-369 | without drops and unreadable samples only the race loses credits |
| `Credit.RaceLosesACredit` | benchmarks/subspace_bench.cc:272-303 | a reachable state in which a credit is lost with nothing dropped |
| `Credit.WriteWithinReach` | benchmarks/subspace_bench.cc:247-278 | while a credit is left the next write can always be reached |
| `Credit.WedgedForever` | benchmarks/zenoh_bench.cc:319-374 | two lost credits close the guard for good |
| `Credit.WritesIffCreditLeft` | benchmarks/zenoh_bench.cc:319-374 | a running publisher can write again if and only if fewer than two credits are gone |
| `Credit.LosslessNeverWedges` | benchmarks/subspace_bench.cc:247-369 | with lossless delivery at most one credit is lost and a write stays possible |
| `Credit.BoundedWorkBetweenWrites` | benchmarks/zenoh_bench.cc:341-374 | between two writes, under every schedule, a bound on the subscriber's takes, loads, exchanges and the retries that were not spurious |
| `Credit.WorkBetweenWrites` | benchmarks/zenoh_bench.cc:341-374 | that bound is seven steps |
| `Credit.DrainedGuardOpens` | benchmarks/zenoh_bench.cc:319-374 | once the queue is drained and counted, the guard is open if and only if fewer than two credits are lost |
| `Credit.LedgerBalances` | benchmarks/cyclone_bench.cc:347-402 | every counter is what the steps of the run add up to |
| `Credit.TwoInAnyRun` | notes/benchmarks.md:131 | in step counts alone: at most two credits out and two samples unconsumed, one skipped decrement, a number drawn for every write |
| `Credit.PublisherExits` | benchmarks/cyclone_bench.cc:404-407 | after stop the publisher makes at most five more steps, and one is possible until it has left |
| `Credit.OneWriteAfterStop` | benchmarks/cyclone_bench.cc:348-404 | after stop at most one further write, counted in the run itself |
| `CreditAtomic.StepRefines` | benchmarks/cyclone_bench.cc:382-383 | a fine step is one atomic step or none |
| `CreditAtomic.LoopRefinesAtomicDecrement` | benchmarks/cyclone_bench.cc:347-402 | every interleaving of the retry loop is one with an atomic decrement-if-positive |
| `CreditAtomic.RunRefines` | benchmarks/cyclone_bench.cc:339-402 | every run from the start is a run of the protocol with the atomic step |
| `CreditAtomic.OneDecrementPerTake` | benchmarks/cyclone_bench.cc:398-401 | exactly one atomic decrement per credit-returning take |
| `Stamp.StampPayload` | vsomeip/bench/bench_common.h:128-137 | send time in bytes 0 to 8, number in 8 to 12, byte k from 12 on k * 131 + number mod 256; a short buffer is left alone |
| `Stamp.StampReadsBack` | vsomeip/bench/bench_common.h:128-146 | reading a stamped buffer gives the pair back exactly when the buffer can hold one |
| `Rpc.EchoClient.OnEchoResponse` | vsomeip/bench/event_client.cc:137-152 | the three guarded fields after an answer; unreadable and foreign answers change nothing |
| `Rpc.EchoClient.Arm` | vsomeip/bench/event_client.cc:174-178 | pending call set, done cleared, round trip untouched |
| `Rpc.RunKeepsInvariant` | vsomeip/bench/event_client.cc:137-192 | the invariant of caller, network and stored answer over every run |
| `Rpc.RpcSafety` | vsomeip/bench/event_client.cc:137-192 | a set done flag means the stored round trip is that of an answer received to the pending call; each recorded sample is that of an answer received to its own call; samples plus timeouts are the calls finished |
| `Rpc.StampIsClock` | vsomeip/bench/event_client.cc:165-166 | a call's stamp is the clock at its stamping, whatever follows |
| `Rpc.ReadInStretch` | vsomeip/bench/event_client.cc:138 | stamps and arrival times logged in a stretch of a run are clock readings of that stretch |
| `Rpc.OwnAnswerStored` | vsomeip/bench/event_client.cc:145-151 | an answer to the call being waited for is stored with its own round trip, and the wait can only succeed |
| `Rpc.AnsweredCall` | vsomeip/bench/event_client.cc:180-189 | a call answered at any time can complete with the time from its stamp to then |
| `Rpc.WaitsAreOutcomes` | vsomeip/bench/event_client.cc:184-189 | samples and timeouts are the waits that ended so |
| `Rpc.LateAnswerIgnored` | vsomeip/bench/event_client.cc:145-151 | after an answer to a decided call was handled, the run reaches no samples or outcomes that it would not reach without it |
| `PingPong.RunKeepsInvariant` | benchmarks/net/zenoh_net.cc:98-131 | causality, probe and round ranges, freshness and counts over every run |
| `PingPong.SamplesAreFresh` | benchmarks/net/subspace_net.cc:177-213 | sample k brackets the sending and the echo of its own round's seq, which no probe uses |
| `PingPong.RoundMeasures` | benchmarks/net/subspace_net.cc:197-208 | the sample of a round is the clock when t0 was read, the clock when it was stored, and half their difference in microseconds |
| `PingPong.RoundCompletes` | benchmarks/net/zenoh_net.cc:116-127 | an echoed round can complete with that sample |
| `PingPong.ProbeLinks` | benchmarks/net/zenoh_net.cc:99-107 | an echoed probe starts the first round |
| `PingPong.PrintedCount` | benchmarks/net/cyclone_net.cc:195-214 | a printed line stands for exactly count samples if and only if warm-up is not negative |
| `LinkedPingPong.RunKeepsInvariant` | benchmarks/zenoh_bench.cc:250-297 | every number is put once, rounds go on from the linked probe, over every run |
| `LinkedPingPong.SamplesAreFresh` | benchmarks/zenoh_bench.cc:266-293 | round k times the only message ever put under linked + 1 + k, from its own stamp, put after round k - 1 ended |
| `LinkedPingPong.RoundMeasures` | benchmarks/zenoh_bench.cc:286-292 | the sample of a round runs from the matched message's stamp to the clock when it is recorded, which is no earlier than the clock at the match |
| `LinkedPingPong.RecordedInStretch` | benchmarks/zenoh_bench.cc:282-293 | samples of a stretch of a run carry receive times of that stretch |
| `LinkedPingPong.StampedInStretch` | benchmarks/zenoh_bench.cc:284 | and so do the stamps |
| `LinkedPingPong.RoundCompletes` | benchmarks/zenoh_bench.cc:282-293 | a round can complete with that sample |
| `LinkedPingPong.ProbeLinks` | benchmarks/zenoh_bench.cc:250-264 | a probe that comes back links, and the numbers go on from it |
| `Percentile.SortedUnique` | benchmarks/common.h:79 | sorting has one result, whatever the algorithm |
| `Percentile.SortKeepsOrder` | benchmarks/common.h:79 | sorting keeps pointwise order |
| `Percentile.OrderImmaterial` | benchmarks/common.h:75-85 | any sorted arrangement of the samples interpolates to the same value |
| `Percentile.SampleOrderImmaterial` | vsomeip/bench/bench_common.h:97-107 | the order of the samples does not matter |
| `Percentile.PercentileMonotone` | benchmarks/common.h:75-85 | monotone in p and in the data |
| `Percentile.PercentileInterpolates` | benchmarks/common.h:80-84 | linear between neighbouring order statistics, ends included |
| `Percentile.PercentileEnds` | benchmarks/common.h:80-84 | the least sample at 0, the greatest at 1 |
| `Percentile.PercentileWithin` | benchmarks/common.h:75-85 | always between the least and the greatest sample |
| `SizeLabel.LabelRoundTrip` | vsomeip/docker/render_snapshot.py:23-28 | a parser undoes the label, for every integer |
| `SizeLabel.LabelInjective` | vsomeip/docker/render_snapshot.py:23-28 | two sizes have the same label if and only if they are equal |
| `SizeLabel.LabelTexts` | vsomeip/docker/render_snapshot.py:23-28 | the texts for the sizes of the results table and around them |
| `Sorting.StableOrder` | vsomeip/docker/render_snapshot.py:52 | a stable sort for any total, transitive order |
| `Sorting.TextLeqIs` | vsomeip/docker/render_snapshot.py:49 | text order is the dictionary order |
| `Snapshot.LatestStep` | vsomeip/docker/render_snapshot.py:48-50 | which row is kept when one more row is read |
| `Snapshot.KeepNewest` | vsomeip/docker/render_snapshot.py:45-50 | the dictionary holds the latest row of every configuration, in order of first appearance |
| `Snapshot.LatestPerConfig` | vsomeip/docker/render_snapshot.py:43-53 | one row per stack, size and rate, the last among those with the greatest timestamp, ascending by stack in dictionary order and by size as a number, ties in order of first appearance; an error exactly when a size is not a number |
| `Snapshot.SelectionUnique` | vsomeip/docker/render_snapshot.py:43-53 | the rows determine that result |
| `Snapshot.LatestIdempotent` | vsomeip/docker/render_snapshot.py:43-53 | selecting again changes nothing |
| `Comparison.Tabulate` | vsomeip/docker/render_snapshot.py:89-98 | the nested dictionary holds each stack's last row for each (size, rate) |
| `Comparison.CompareStacks` | vsomeip/docker/render_snapshot.py:87-129 | every (size, rate) of either stack, once, ascending; each stack's mean and p99 under its own heading are the texts of its last row or NA; the sample count once if both agree, else both joined; the size's label |
| `Comparison.NewestShownIff` | vsomeip/docker/render_snapshot.py:43-98 | after keep-newest, a stack's newest row is shown if and only if its spelling of the size appeared last |
| `Comparison.OlderRowHidesNewer` | vsomeip/docker/render_snapshot.py:43-98 | a concrete history in which an older row is shown |
| `Comparison.SnapshotPairsNewest` | vsomeip/docker/render_snapshot.py:43-129 | with one spelling per size: no (size, rate) of the history lost, once each in order, and every line shows both stacks' newest rows in their own columns |
| `Chart.IndexBySize` | vsomeip/docker/render_snapshot.py:63-72 | the last usable row of a stack for every size |
| `Chart.SeriesForStack` | vsomeip/docker/render_snapshot.py:62-84 | one point per ladder size that has a usable row, in ladder order, its mean and p99 read from those columns of the last usable row; an error exactly when one of them is unreadable |
| `Chart.Align` | vsomeip/docker/render_snapshot.py:152-154 | aligning by label gives the value of the size at each position, or nothing |
| `Chart.ChartLines` | vsomeip/docker/render_snapshot.py:144-160 | at every position one ladder size, its label, and for each stack the mean of its last usable row there, or nothing where it has none |
| `Chart.SnapshotChart` | vsomeip/docker/render_snapshot.py:14 | the same over the snapshot's own ladder |
| `Chart.NoPointDropped` | vsomeip/docker/render_snapshot.py:146-150 | a ladder size is plotted if and only if some stack has a point there |
| `Chart.NoRowDropped` | vsomeip/docker/render_snapshot.py:56-73 | a ladder size is plotted if and only if some stack has a usable row there |
| `Chart.LadderLabels` | vsomeip/docker/render_snapshot.py:14 | the ladder as the results table labels it |
| `Chart.DrawnAscending` | vsomeip/docker/render_snapshot.py:77-80 | points stand in ascending order of size |

## Left out

- Middleware internals (DDS, iceoryx, Zenoh, Subspace, vsomeip, FlatBuffers): each is a channel or queue whose loss and order behaviour is stated in the model.
- The E2E checksum and counter: the stacks compute them. The model lets the header occupy the hole with arbitrary bytes.
- `Publisher.Worker`: the wait for registration and subscription and the pacing sleep are not modelled; clock readings are a parameter, and the options must keep `warmup + count` within an `int` and planning from dividing by zero, outside of which the C++ is undefined.
- `Fragment.WriteChunkHeaders`: memory beyond the block is no part of the model. Where the last header copy runs past the end of the block, the model keeps the part inside; what such a copy does elsewhere is undefined in C++ and not stated.
- `Fragment.PlanShape`: sizes up to 2^63, since a block has to fit in memory; `Fragment.PlanTraps` covers all 64-bit arguments.
- Credit and CreditAtomic: atomics are sequentially consistent, so relaxed and acquire/release orderings are not distinguished. The threads are a step relation and not methods, because their interleaving is the point. The cap of 32 drained samples and the two-second timeout appear as free choices of the subscriber.
- `Credit.CreditSafety`: starts with an empty queue, as the Cyclone and Subspace runs do; the Zenoh run does too when probes arrive in the order they were put, and a probe overtaken by a later one is not modelled.
- Fairness: `Credit.WritesIffCreditLeft` says that the next write can be reached, and `Credit.BoundedWorkBetweenWrites` bounds the subscriber's work; that the scheduler eventually runs a thread is not stated.
- `Rpc.RpcSafety`: the calling thread is a step relation, with the two mutex sections as the methods of `EchoClient`; the peer returns each request's bytes unchanged; the summary line and the datagram size check are left out, and the clock does not wrap.
- `PingPong.SamplesAreFresh`: the loop of `RunPub` is a step relation.
- `LinkedPingPong.SamplesAreFresh`: a step relation too. An exception out of `PutShm` ends the benchmark and is not modelled; latencies stay in nanoseconds.
- The mean, `MtTakeStats`, byte and item counters: easy members.
- Floating-point rounding: latencies and percentiles are reals. `std::sort` is any sort; `Percentile.OrderImmaterial` makes the choice immaterial.
- `Percentile.PercentileMonotone`: p within 0..1, the only values used; outside, the code reads beyond the samples.
- Snapshot: `int()` and `float()` are arbitrary readers of text (with "" not a number and "0" zero). Columns missing because a row is short, the run-label filter, the improvement column, number formatting, the axis maximum, CSV text and the page template are left out.
- Command-line parsing, CSV printing, sync files, process set-up, Docker and Bazel files: no property to state.
