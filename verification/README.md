# Verified model of the EDGEPLANT USB peripheral driver

This project models the parts of the driver where a mistake would be hard to see by reading: the calendar
arithmetic behind the real-time clock, the search for CAN bit timings, the byte ring shared by one writer and one
reader, the message framing on USB, and the protocols built on top of them. Each part is written in the form the
driver gives it: buffers are arrays changed in place, objects are classes, loops are loops, and what several parties
do at the same time is a state machine whose labels are single steps of single parties. Every result is about all
inputs, or about every schedule of steps.

Check everything with `dafny verify dfyconfig.toml`.

## Parts

| files | part |
|---|---|
| `Calendar`, `RtcTime` | seconds to date by multiplication instead of division, against a day count made of whole years and months; the RTC message |
| `BestCandidate`, `SamplePoint`, `BitTimingSearch`, `LateSamplePoints`, `BitTiming` | the best-so-far search over bit times and prescalers, exactly when it is optimal, the soundness of its result against the separate range check and the inverse computation, and the timing message |
| `ByteRing`, `RingBuffer`, `RingInterleaving` | the ring as a value, as the class with its buffer, and as interleaved load, copy and publish steps |
| `Frames`, `Receiver` | one frame, the resynchronising scan, and the receive callback with its carry-over buffer |
| `Transmit` | queue, transmit thread, token limiter, transfers in flight, and the stop routine |
| `StoreData` | the credit protocol of the store-data download |
| `SyncCommand` | request and response over one completion and one semaphore |
| `BitCount`, `HostTimestamps` | counting bits with octal masks, and rewriting timestamps in a buffer of records |
| `LostFrames` | the download tool's count of lost frames |
| `CInts`, `Nonlinear`, `Sequences`, `Memory`, `LittleEndian` | C integers, arithmetic and sequence facts, copies, byte order |

In the state machines a label whose step is not possible leaves the state as it is, so a run is any sequence of
labels. The states carry history fields (`accepted`, `fates`, `sent`, `events` and the like) that no step depends on.

## What the results depend on

* Memory is sequentially consistent, and a ring has one writer and one reader. Clearing a ring is one step, at any time;
  when that is clean is proved, not assumed.
* `RingInterleaving` copies byte by byte. `RingInterleaving.EveryRunIsWholeOperations` shows that every run with clean clears
  is a run of whole operations in which a write may also be skipped where there is room, and a read may be shorter than
  it could be. `Transmit` therefore takes a read as one step, with the label `ThreadFindsNothing` for a header read that
  sees nothing yet (the writer publishes whole messages, so a header read sees all of one or nothing), and a write as
  two, loading the pointers and publishing. `StoreData` takes both as one step, and they are shown never to overlap.
* Received messages are dispatched one at a time, in order.
* Time in jiffies is a natural number. A semaphore is a counter; a step that has to wait is not possible yet.
* Copies to and from user memory and allocations succeed, except where a failing branch is a label.
* For bit timing the limit tables have the shape of the driver's two tables (`SamplePoint.WellFormed`), and no divisor
  of the search is zero (`BitTimingSearch.Answerable`); `BitTimingSearch.Exact` names the inputs for which its 32-bit
  arithmetic is exact. Everything before those steps is computed with wrap-around, as the code does.

## Where the code does less than one might expect

* A download request that does not reach the device stops the download for good, although nothing is lost:
  `StoreData.DownloadIsStuckIff` gives the exact condition and `StoreData.LostRequestIsForever` the consequence.
  `StoreData.StuckIsReached` is a run that gets there.
* A start of a download may come at any time, and can then mix two downloads or lose frames: `StoreData.StartIsCleanIff`
  gives the exact condition, `StoreData.DownloadIsLossless` that of whole runs, and `StoreData.UnderWayIsReached` a run
  after which a start is not clean.
* A ring may be cleared while it is written, as the stop routine makes the transmit thread do. Bytes that were consumed
  can then come again: `RingInterleaving.ClearInWriteRepeats`, `Transmit.UncleanClearIsReached`. A clear does no harm if
  and only if the writer is idle or starts from the beginning of the buffer, and the reader is idle or found nothing:
  `RingInterleaving.EveryRunKeepsOrder`, `Transmit.TransmitStaysAligned`.
* A start byte in noise can swallow a message and make up another one (`Frames.StartByteInNoiseSwallows`). Which noise
  is harmless to every list of messages is decided by `Frames.Harmless`: `Frames.NoiseIsHarmlessIff`.
* A set command can be told success by an ACK that arrived before it started, in answer to an earlier command with the
  same identifier (`SyncCommand.LateAckIsTaken`), and even by the ACK to another command while the device refuses it, if
  the NACK overwrites the reply buffer as it is copied out (`SyncCommand.RefusalIsToldAsSuccess`). `SyncCommand.SuccessIsOwn`
  shows that this can happen if and only if the dispatcher, when the command starts, has compared an ACK and not yet
  signalled it. An ACK to the earlier command that arrives after the start cannot be told from the command's own by anyone.
* The 8-bit year of the RTC message is faithful exactly from 2000 to 2255: `RtcTime.GetRealRtcTime`.
* A better bit rate at a bit time that cannot be split makes the search forget a sample-point error.
  `BitTimingSearch.SearchIsOptimal` says exactly which candidates this costs. It costs none when the bit times that can
  be split form one stretch (`BitTimingSearch.OneStretchForfeitsNothing`), which they do for every nominal sample point
  except 1008 to 1333 per mille, or 1063 to 1333 for the data table (`SamplePoint.DriverStretches`). Nothing keeps a
  caller from asking for those: `LateSamplePoints.WideForfeits` is a request that gets the worse of two candidates.
* From a nominal sample point of 1000 per mille on, the driver can miss the nearest sample point: `SamplePoint.NearestIff`
  says when. Below that it always attains it.
* From a nominal sample point of 2007 per mille, or 2062 for the data table, the search can succeed with a segment that
  wrapped around: `LateSamplePoints.ResultsInLimitsIff`, with `LateSamplePoints.OvershotIsTaken` for 80 MHz and 625 kbit/s.
* The lost-frame count includes frames that arrive late: `LostFrames.MissingMeans` gives the exact formula. After a
  counter of 2^64 - 1 it can also count again what had arrived (`LostFrames.WrapLosesCount`); `LostFrames.LostIsMissingIff`
  says exactly when it does not.

## Model

| member | source | states |
|---|---|---|
| Calendar.Time64ToTm | module/ep1_cf02a/ep1_cf02a_fops.c:969-1062 | for every signed 64-bit second count and 32-bit offset: the valid date whose day count from 1970-01-01 is the floor of the quotient by a day, with the remainder recomposed by hour, minute and second, the weekday, and the day of the year |
| Calendar.InstantHasOneTm | module/ep1_cf02a/ep1_cf02a_fops.c:961-969 | an instant has exactly one such broken-down time, so the result is determined |
| Calendar.SplitDays | module/ep1_cf02a/ep1_cf02a_fops.c:977-987 | truncating division and the two adjusting loops give the floor quotient and remainder |
| Calendar.DateOfDayRefinesDayCount | module/ep1_cf02a/ep1_cf02a_fops.c:1027-1061 | the branch-free conversion inverts the day count made of whole years and months, for every day within 2^47 of the epoch |
| Calendar.DayCountInjective | module/ep1_cf02a/ep1_cf02a_fops.c:1016-1018 | two valid dates with the same day count are the same date |
| Calendar.YearByMultiplication | module/ep1_cf02a/ep1_cf02a_fops.c:1033-1036 | multiplying by 2939745 and taking the upper and lower 32 bits divides by 1461 with remainder |
| Calendar.MonthByMultiplication | module/ep1_cf02a/ep1_cf02a_fops.c:1041-1043 | 2141 times the day plus 132377 holds the month above and the day within the month below 16 bits |
| Calendar.UnbiasedDay | module/ep1_cf02a/ep1_cf02a_fops.c:1027-1031 | the bias keeps negative days apart from wrap-around and shifts the century by a multiple of four |
| Calendar.YearStartClosedForm | module/ep1_cf02a/ep1_cf02a_fops.c:1038-1039 | the sum of year lengths has the usual closed form, before and after 1970 |
| RtcTime.GetRealRtcTime | module/ep1_cf02a/ep1_cf02a_fops.c:1068-1089 | the fields denote the instant, with Sunday as day 7, if and only if the time lies in 2000 to 2255; the year stays below 100 until 2100 |
| RtcTime.RtcFaithful | module/ep1_cf02a/ep1_cf02a_fops.c:1076-1088 | the conversion from broken-down time is faithful exactly when the year fits eight bits after 2000 |
| RtcTime.PackSetRtcTime | module/ep1_cf02a/ep1_cf02a_msg.c:281-308 | byte by byte, the message holds weekday, month, date, year, hour, minute, second and the microseconds with the lowest byte first, and nothing behind its eleven bytes changes |
| RtcTime.ParseResponseGetRtcTime | module/ep1_cf02a/ep1_cf02a_msg.c:249-276 | parsing reads the same bytes into the same fields, and inverts packing in both directions |
| RtcTime.RtcBytesInjective | module/ep1_cf02a/ep1_cf02a_msg.c:281-308 | different times pack to different bytes |
| SamplePoint.UpdateSamplePoint | module/ep1_cf02a/ep1_cf02a_fops.c:335-370 | the loop returns the nearer of the two roundings that is not late, and leaves the caller's segments alone when there is none |
| SamplePoint.NearestIff | module/ep1_cf02a/ep1_cf02a_fops.c:335-370 | as long as no product wraps around: among all splits of a bit time within the limits whose sample point is not above the nominal one, the driver attains the nearest, and finds none only if there is none, if and only if the nominal sample point is at most 999 per mille, or a test on the inputs says that its first rounding leaves segment 1 as long as it can be |
| SamplePoint.BestRoundingSplits | module/ep1_cf02a/ep1_cf02a_fops.c:345-364 | for every nominal sample point: the chosen segments are within the limits, add up to the bit time and give the reported sample point if and only if segment 1 has not wrapped, which it never has below 2000 per mille; the reported sample point is at most the nominal one |
| SamplePoint.FeasibleIffSplittable | module/ep1_cf02a/ep1_cf02a_fops.c:346-358 | for every nominal sample point a rounding is usable exactly for the bit times that can be split by a test in plain arithmetic, wrapped subtractions included |
| SamplePoint.AllFeasibleIffLate | module/ep1_cf02a/ep1_cf02a_fops.c:335-370 | every bit time can be split if and only if the nominal sample point is at least 667, or 673 per mille for the data table, and either below 1000 or such that no bit time is too short for it and too long for the longest second segment |
| SamplePoint.IntervalIffOneStretch | module/ep1_cf02a/ep1_cf02a_fops.c:335-370 | the bit times that can be split form an interval if and only if the nominal sample point meets a test on the limits alone |
| SamplePoint.DriverStretches | module/ep1_cf02a/ep1_cf02a_main.c:14-36 | that test fails exactly for 1008 to 1333 per mille, and for 1063 to 1333 with the data table |
| SamplePoint.InLimitsIffBelowOvershoot | module/ep1_cf02a/ep1_cf02a_fops.c:346-364 | every chosen pair of segments is within the limits if and only if the nominal sample point is below `SamplePoint.LeastOvershoot`, products that wrap around included |
| SamplePoint.SegmentsAddUp | module/ep1_cf02a/ep1_cf02a_fops.c:348-353 | the segments add up to the bit time for every input, modulo 2^32 |
| SamplePoint.DriverLimitsAreWellFormed | module/ep1_cf02a/ep1_cf02a_main.c:14-36 | both limit tables of the driver have the shape the results assume |
| SamplePoint.DriverNominals | module/ep1_cf02a/ep1_cf02a_main.c:14-36 | the least nominal sample points of the two tables are 667 and 673, the bounds from which a segment can wrap 2007 and 2062 |
| BestCandidate.SelectFindsLeast | module/ep1_cf02a/ep1_cf02a_fops.c:413-432 | selecting with a forgotten error always finds a usable candidate of the least bit-rate error; it finds the first one that no usable one beats if and only if no better one was forgotten for good |
| BestCandidate.ConvexLosesNothing | module/ep1_cf02a/ep1_cf02a_fops.c:413-432 | nothing is forgotten for good when the usable candidates are convex |
| BestCandidate.PerfectIsFinal | module/ep1_cf02a/ep1_cf02a_fops.c:431-432 | stopping at a candidate without error changes nothing |
| BitTimingSearch.Search | module/ep1_cf02a/ep1_cf02a_fops.c:398-433 | the loop with its early exit computes the selection over all entries |
| BitTimingSearch.SearchIsOptimal | module/ep1_cf02a/ep1_cf02a_fops.c:398-433 | for every request the result has the least bit-rate error of all that are in range and can be split, and none is found if and only if there is none; it is the first one that is least in bit-rate error, then sample-point error, if and only if no candidate is forfeited, that is, forgotten at a better bit rate that cannot be split and not matched afterwards |
| BitTimingSearch.OneStretchForfeitsNothing | module/ep1_cf02a/ep1_cf02a_fops.c:413-432 | nothing is forfeited when the bit times that can be split form one stretch |
| LateSamplePoints.WideForfeits | module/ep1_cf02a/ep1_cf02a_fops.c:413-432 | 536 bit/s at 1312 per mille from a clock of 824884 Hz: the search takes 3 ticks with a sample-point error of 646, although 385 ticks have the same bit-rate error and 645 |
| LateSamplePoints.OvershootHappens | module/ep1_cf02a/ep1_cf02a_fops.c:346-364 | for every nominal sample point from `SamplePoint.LeastOvershoot` on whose products do not wrap around, every request with as many clock periods for each bit as segment 2 can have ticks meets the bit rate with a segment out of limits |
| LateSamplePoints.WrappedOvershootHappens | module/ep1_cf02a/ep1_cf02a_fops.c:346-364 | for every larger nominal sample point there is a request that meets the bit rate at three or four ticks with a segment out of limits |
| LateSamplePoints.OvershotIsTaken | module/ep1_cf02a/ep1_cf02a_fops.c:346-364 | 80 MHz, 625 kbit/s and 2007 per mille: the exact bit rate with segments of 256 and 4294967167 ticks |
| LateSamplePoints.ResultsInLimitsIff | module/ep1_cf02a/ep1_cf02a_fops.c:372-463 | every request with this nominal sample point ends within the limits, or without a result, if and only if it is below `SamplePoint.LeastOvershoot` |
| BitTimingSearch.NoPrescalerIsBetter | module/ep1_cf02a/ep1_cf02a_fops.c:402-411 | no prescaler in range, at any bit time that can be split and whose quotient is in range, has a smaller bit-rate error |
| BitTimingSearch.RoundedQuotientIsAsGood | module/ep1_cf02a/ep1_cf02a_fops.c:402-408 | the quotient and the quotient plus one are enough |
| BitTimingSearch.AcceptedIsUsable | module/ep1_cf02a/ep1_cf02a_fops.c:405-429 | what was accepted is in range and can be split, for any nominal sample point |
| BitTiming.CalcBittiming | module/ep1_cf02a/ep1_cf02a_fops.c:372-470 | a success carries the selected prescaler and bit time, split at the nearest rounding; it passes the separate range check and the inverse computation gives back its bit rate and sample point if and only if the split is within the limits, as it always is below 2007 or 2062 per mille; in exact arithmetic the bit rate is within 5.1 percent, and there is a success if and only if some candidate is accurate enough and the jump width suits the split; the default jump width always does from 667 to 999 per mille; the length of a tick is the quotient of 10^9 times the prescaler by the clock, the default jump width is the largest up to half of segment 2 and phase segment 1, but at least one, and the default sample point is 875 per mille, 800 above 500 kbit/s and 750 above 800 kbit/s |
| BitTiming.DefaultSjwIsAccepted | module/ep1_cf02a/ep1_cf02a_fops.c:288-315 | within the limits the jump width chosen by default is rejected if and only if segment 1 is empty |
| BitTiming.BestDecidesAccuracy | module/ep1_cf02a/ep1_cf02a_fops.c:435-443 | the search reports inaccuracy if and only if no candidate is accurate enough |
| BitTiming.AccuracyIsFivePercent | module/ep1_cf02a/ep1_cf02a_fops.c:435-443 | the truncated comparison in tenths of a percent rejects exactly errors of 5.1 percent and more |
| BitTiming.NothingIsTooInaccurate | module/ep1_cf02a/ep1_cf02a_fops.c:435-443 | without a candidate the error is too large for every bit rate, although the quotient is cut to 32 bits |
| BitTiming.FilledIsSound | module/ep1_cf02a/ep1_cf02a_fops.c:447-469 | filled-in timings pass the range check and give back their own bit rate and sample point |
| BitTiming.CheckIsRange | module/ep1_cf02a/ep1_cf02a_cmd.c:220-247 | the separate range check returns 0 if and only if both segments, the jump width and the prescaler each lie within their limits, and -34 otherwise |
| BitTiming.DriverRanges | module/ep1_cf02a/ep1_cf02a_main.c:14-36 | that range in numbers, for the nominal and the data table |
| BitTiming.InLimitsPassesCheck | module/ep1_cf02a/ep1_cf02a_cmd.c:220-247 | timings within the limits pass the separate range check |
| BitTiming.CalcBitrateIs | module/ep1_cf02a/ep1_cf02a_fops.c:256-283 | the inverse computation in signed arithmetic is the plain quotient |
| BitTiming.TimingRoundTrip | module/ep1_cf02a/ep1_cf02a_msg.c:84-141 | the 16-bit message carries a timing unchanged if and only if every field fits |
| BitTiming.ReportedAsCalculated | module/ep1_cf02a/ep1_cf02a_fops.c:256-283 | a calculated timing read back from the device reports exactly the calculated bit rate and sample point |
| BitTiming.PackSetBitTiming | module/ep1_cf02a/ep1_cf02a_msg.c:115-141 | byte by byte, the message holds the propagation segment, both phase segments, jump width and prescaler, each modulo 2^16 with the lower byte first, and nothing behind its ten bytes changes |
| LittleEndian.Le16RoundTrip | module/ep1_cf02a/ep1_cf02a_msg.c:89-91 | two bytes carry an integer exactly when it fits, and its low 16 bits otherwise |
| LittleEndian.Le32Spells | module/apt_usbtrx_fops.c:74-79 | the four bytes of a 32-bit integer are its digits to base 256, the lowest first |
| ByteRing.AcceptedIff | module/apt_usbtrx_ringbuffer.c:262-327 | a write is accepted if and only if it is smaller than the free space, or fills it with the read pointer at the beginning |
| ByteRing.TargetsAreFree | module/apt_usbtrx_ringbuffer.c:288-316 | no byte of an accepted write goes to an unread place, and no two go to the same |
| ByteRing.PublishAppends | module/apt_usbtrx_ringbuffer.c:288-316 | publishing the write pointer appends exactly the copied data |
| ByteRing.PublishDrops | module/apt_usbtrx_ringbuffer.c:211-255 | publishing the read pointer drops exactly the copied prefix |
| ByteRing.SourceIsContents | module/apt_usbtrx_ringbuffer.c:211-250 | byte for byte, a read copies the oldest unread bytes |
| ByteRing.WritePlanSurvives | module/apt_usbtrx_ringbuffer.c:285-308 | what the writer decided from an old read pointer is what it would decide now |
| ByteRing.ReadPlanSurvives | module/apt_usbtrx_ringbuffer.c:208-250 | what the reader decided from an old write pointer is right for as many bytes now |
| ByteRing.StillRightAfterClear | module/apt_usbtrx_ringbuffer.c:285-308 | what the writer decided from pointers loaded before a clear puts every byte where it would go now, if it starts from the beginning |
| ByteRing.LetsClearIff | module/apt_usbtrx_ringbuffer.c:285-308 | a write starts from the beginning exactly when it leaves its own data and nothing else in front of the pointer |
| ByteRing.WriteRingAppends | module/apt_usbtrx_ringbuffer.c:262-327 | a whole write appends its data or changes nothing, and exactly which |
| ByteRing.ReadRingTakesPrefix | module/apt_usbtrx_ringbuffer.c:190-257 | a whole read hands over the prefix asked for, or everything |
| ByteRing.UsedSizeIsLength | module/apt_usbtrx_ringbuffer.c:376-406 | used size is the length of the contents, used and free size add up to the capacity, and equal pointers mean empty |
| RingBuffer.RingBuffer.Write | module/apt_usbtrx_ringbuffer.c:262-327 | the class in place: new buffer and pointers are the model's write, the result tells acceptance, and a refusal adds exactly its size to the skip count modulo 2^64 and is logged only once |
| RingBuffer.RingBuffer.RawRead | module/apt_usbtrx_ringbuffer.c:190-257 | the class in place: the oldest bytes arrive in the destination, nothing else there changes, and the ring is the model's read |
| RingBuffer.RingBuffer.IsEmpty | module/apt_usbtrx_ringbuffer.c:332-353 | empty if and only if there are no contents |
| RingBuffer.RingBuffer.Clear | module/apt_usbtrx_ringbuffer.c:358-371 | both pointers at the beginning, contents gone, logging allowed again |
| RingBuffer.RingBuffer.GetUsedSize | module/apt_usbtrx_ringbuffer.c:376-397 | the number of unread bytes |
| RingBuffer.RingBuffer.GetFreeSize | module/apt_usbtrx_ringbuffer.c:402-406 | the capacity less the number of unread bytes |
| RingInterleaving.EveryRunKeepsOrder | module/apt_usbtrx_ringbuffer.c:190-371 | in whatever way a run of load, copy, publish and clear steps goes on without another clear, bytes that left and contents are the accepted writes in order, no step copies into unread bytes, and accepted, skipped and counted bytes agree, if and only if each clear came while the writer was idle or started from the beginning and the reader was idle or had found nothing |
| RingInterleaving.UnclearedRunKeepsOrder | module/apt_usbtrx_ringbuffer.c:190-327 | without a clear, consumed bytes and contents are exactly the accepted writes |
| RingInterleaving.ClearInWriteRepeats | module/apt_usbtrx_ringbuffer.c:358-371 | a run in which a clear between loading and publishing makes two consumed bytes come again |
| RingInterleaving.EveryRunIsWholeOperations | module/apt_usbtrx_ringbuffer.c:190-371 | every interleaved run whose clears are clean leaves the pointers, unread bytes and history of the run of whole operations in the order in which they took effect, skipped writes and shorter reads included |
| RingInterleaving.StepsStayApart | module/apt_usbtrx_ringbuffer.c:208-316 | in every reachable state the writer's next byte goes to a free place and the reader's comes from an unread one |
| RingInterleaving.StepKeepsInv | module/apt_usbtrx_ringbuffer.c:190-371 | every step, a clean clear included, keeps that old views are still right and that what was copied is in place |
| Frames.ParseIsInverseOfPack | module/apt_usbtrx_msg.c:18-126 | parsing finds a message if and only if its packed frame stands there |
| Frames.FrameBytes | module/apt_usbtrx_msg.c:94-126 | a frame is 0xF7, its own length, the identifier, the payload and 0xFA, at most 82 bytes in all |
| Frames.VerdictStands | module/apt_usbtrx_msg.c:32-64 | a verdict other than "not enough" does not depend on later bytes |
| Frames.ScanInTwo | module/apt_usbtrx_core.c:216-254 | scanning, carrying the rest over and scanning on is scanning at once |
| Frames.ChunkingIndependence | module/apt_usbtrx_core.c:216-254 | however a stream is cut into transfers, the same messages are dispatched and the same bytes carried over |
| Frames.CarryIsShort | module/apt_usbtrx_core.c:223-254 | at most 81 bytes are carried over |
| Frames.StreamRoundTrip | module/apt_usbtrx_core.c:223-245 | after harmless noise, packed messages with any payloads are dispatched in order, and the scan goes on right behind them |
| Frames.NoiseIsHarmlessIff | module/apt_usbtrx_core.c:223-245 | every list of messages gets through after some noise if and only if nowhere in it a start byte is followed by a length that ends at an end byte in the noise, or beyond the first two bytes after it |
| Frames.StartByteInNoiseSwallows | module/apt_usbtrx_msg.c:32-64 | two bytes of noise by which a sent message is lost and another one made up |
| Frames.MsgParse | module/apt_usbtrx_msg.c:18-89 | the cursor computes the parse of the bytes from its position on |
| Frames.MsgPack | module/apt_usbtrx_msg.c:94-126 | the frame is written, or nothing when it does not fit |
| Receiver.Receiver.ScanBuffer | module/apt_usbtrx_core.c:220-245 | the loop dispatches exactly the scan's messages, stops at its rest, and terminates |
| Receiver.Receiver.Receive | module/apt_usbtrx_core.c:216-254 | the transfer joins the carried bytes within the 2048-byte buffer, and the rest moves to its front; over any sequence of transfers the messages dispatched and the bytes carried are those of one scan of all bytes received |
| Receiver.Receiver.OnTransfer | module/apt_usbtrx_core.c:176-263 | by status: what is dispatched, what is carried over, and whether the transfer is submitted again |
| StoreData.BatchIsLargestLossless | module/ep1_cf02a/ep1_cf02a_main.c:196-200 | the batch size is exactly the largest number of frames that every empty ring of the size takes whole, wherever its pointers rest |
| StoreData.AllAcceptedIff | module/apt_usbtrx_ringbuffer.c:285-316 | away from the beginning, a batch is taken whole if and only if one byte stays free |
| StoreData.DriverBatch | module/ep1_cf02a/ep1_cf02a_main.c:196-198 | with its ring of 32768 bytes the driver asks for 420 frames of 78 bytes at a time |
| StoreData.FrameFits | module/ep1_cf02a/ep1_cf02a_core.c:132-140 | the ring takes every frame that is under way |
| StoreData.WakeMeansQuiet | module/ep1_cf02a/ep1_cf02a_fops.c:1357-1384 | when the reader is enabled the device has no credit and no frame is under way |
| StoreData.StepKeepsInv | module/ep1_cf02a/ep1_cf02a_fops.c:1330-1484 | every step of device, dispatcher and reader keeps the accounting of credit, counted and uncounted frames |
| StoreData.DownloadIsLossless | module/ep1_cf02a/ep1_cf02a_fops.c:1311-1484 | for every schedule, starts and stops at any time included: however the run goes on from any of its points without another start, no frame is dropped, bytes read and bytes on their way are the bytes sent in order, the end is not announced early, a request finds no credit, an empty ring and a quiet bus, and the ring is never read and written at once, if and only if each start is clean |
| StoreData.StartIsCleanIff | module/ep1_cf02a/ep1_cf02a_fops.c:1330-1351 | a start issued at any point of such a run is followed by lossless runs only if and only if no frame, credit or completion notice of the previous download is under way, no other start is, and no read call has gone past its wait |
| StoreData.UnderWayIsReached | module/ep1_cf02a/ep1_cf02a_fops.c:1330-1351 | right after the first start has reached the device a second one is not clean |
| StoreData.DownloadIsStuckIff | module/ep1_cf02a/ep1_cf02a_fops.c:1357-1384 | with a quiet bus a running download whose starts were clean can go on if and only if no request was lost or the device has ended it |
| StoreData.LostRequestIsForever | module/ep1_cf02a/ep1_cf02a_fops.c:1466-1481 | after a lost request nothing but a new start, a stop, or the end of the download helps |
| StoreData.StuckIsReached | module/ep1_cf02a/ep1_cf02a_fops.c:1466-1481 | for every ring that takes a frame, a run in which the first batch arrives and is read, and the request for the next one is lost |
| StoreData.AnyNumberOfBatches | module/ep1_cf02a/ep1_cf02a_fops.c:1386-1484 | for every ring that takes a frame and every number, one clean start is enough for a run in which the user reads that many batches |
| StoreData.NoRequestAfterEnd | module/ep1_cf02a/ep1_cf02a_fops.c:1466-1483 | once the end is announced, a read call that has not looked for it yet, and every later one, asks for no further batch until the next start, however the run goes on |
| StoreData.EveryLossIsCounted | module/ep1_cf02a/ep1_cf02a_core.c:132-140 | however a download runs on, its starts clean or not: what was sent is read, in the ring, on its way, or in a frame that the ring refused as a whole and that was counted as dropped |
| StoreData.EveryStartIsAnswered | module/ep1_cf02a/ep1_cf02a_fops.c:1330-1351 | after any run, each start that is still on its way makes the device send a batch when it arrives, and a stop ends a running download |
| StoreData.NothingAfterEnd | module/ep1_cf02a/ep1_cf02a_fops.c:1330-1351 | a download that has ended, or was stopped, sends nothing, whatever is requested, until another start arrives |
| SyncCommand.OneAtATime | module/apt_usbtrx_core.c:419-559 | at most one transaction is outstanding, and each has given the semaphore back exactly as often as it took it, at most once, on every path |
| SyncCommand.EveryCommandIsTold | module/ep1_cf02a/ep1_cf02a_cmd.c:68-125 | whenever the semaphore is free and the dispatcher idle, a get or set command whose reply comes in time is told the response, success on an ACK and refusal on a NACK, and leaves the semaphore free again |
| SyncCommand.OwnReplyAfterMismatch | module/apt_usbtrx_core.c:486-559 | so it is after a reply in which it found no match |
| SyncCommand.EveryCommandCanEnd | module/apt_usbtrx_core.c:419-559 | in every reachable state each transaction under way can end without a reply, through each of the failing branches, and gives back the semaphore exactly if it has it |
| SyncCommand.SuccessIsOwn | module/ep1_cf02a/ep1_cf02a_cmd.c:68-125 | in any reachable state in which a set command is about to start: however the run goes on, torn copies of the reply buffer included, it succeeds, or is refused, only by an ACK, or a NACK, naming it that arrived after its own `init_completion`, if and only if the dispatcher does not then hold any ACK, or NACK, between comparing and signalling it |
| SyncCommand.LateAckIsTaken | module/apt_usbtrx_core.c:136-157 | a run in which a set command succeeds by the ACK of an earlier one that had timed out |
| SyncCommand.RefusalIsToldAsSuccess | module/apt_usbtrx_core.c:136-157 | a run in which a set command that the device refuses succeeds by the ACK to another command, torn by its own NACK |
| SyncCommand.SuccessWasHandledSince | module/apt_usbtrx_core.c:419-559 | in every run a set command succeeds, or is refused, only if an ACK, or a NACK, and a reply whose first byte names the command were still being copied or signalled after its own start |
| SyncCommand.StepKeepsInv | module/apt_usbtrx_core.c:136-157 | every step of clients and dispatcher keeps that a pending completion, and each part of a reply copied so far, belongs to a reply handled since |
| Transmit.TransmitStaysAligned | module/apt_usbtrx_core.c:608-698 | however a run goes on from any of its points while the thread finishes its round, the buffers given to the bus are exactly the accepted messages not cleared, whole and in order, the header read yields nothing or a usable header, and one more read the rest, if and only if each clear of the run comes without a writer or with one that starts from the beginning |
| Transmit.UncleanClearIsReached | module/apt_usbtrx_core.c:608-612 | a run in which the stop routine makes the thread clear the ring while a second message is being written |
| Transmit.HeaderIsWhole | module/apt_usbtrx_core.c:651-672 | the header read yields 0 or 4 bytes, and its length byte is that of the next message |
| Transmit.RestIsThere | module/apt_usbtrx_core.c:674-685 | one read completes the message, so the loop ends |
| Transmit.QueuedIff | module/apt_usbtrx_fops.c:309-371 | exactly which messages are queued, by the pointers their writer loaded and whatever happens before it publishes |
| Transmit.ClearKeepsAligned | module/apt_usbtrx_core.c:608-612 | a clean clear drops whole messages only, and leaves the view of a writer right |
| Transmit.AtMostFourInFlight | module/apt_usbtrx_core.c:330-351 | across thread, firmware writers, completions and stop routine every permit is free, held once, or in flight |
| Transmit.StepKeepsPermits | module/apt_usbtrx_fops.c:745-775 | every step of every party keeps that balance |
| Transmit.RateIsBounded | module/apt_usbtrx_core.c:627-644 | by jiffy T at most the tokens of T / (D + 1) + 1 refills were submitted |
| Transmit.ThrottlingStopsTransfers | module/apt_usbtrx_core.c:627-644 | after a refill that saw a rate above 80 nothing is submitted before a refill that sees a rate of 80 or less, in every run |
| Transmit.RefillByRate | module/apt_usbtrx_core.c:627-636 | a refill at a rate above 80 leaves no token, one at 80 or less the full number, and starts a new interval |
| Transmit.LastRateDecides | module/apt_usbtrx_core.c:108-121 | the rate a refill goes by is the one notified last |
| Transmit.QueuedIsSubmitted | module/apt_usbtrx_core.c:603-698 | from every aligned state at the head of a round with a message queued, a permit free, no clear requested, and rate and time allowing it, the thread gives the bus exactly the packed form of that message |
| Transmit.QueuedIsSubmittedInTime | module/apt_usbtrx_core.c:627-698 | at a rate of 80 or less it does so after at most an interval and a jiffy, whatever tokens were left |
| Transmit.ThreadComesBack | module/apt_usbtrx_core.c:603-698 | wherever the thread stands, it comes back to the head of its round without a transfer, gives back its permit, and what it had taken has failed |
| Transmit.PermitsComeBack | module/apt_usbtrx_core.c:330-351 | from every such state some run makes all four permits free again, whether transfers start or not |
| Transmit.AskedIsCleared | module/ep1_cf02a/ep1_cf02a_fops.c:1826-1840 | a clear that the stop routine has asked for empties the ring at the head of the next round, each queued message is cleared, and the routine gets its permit |
| Transmit.HeaderIsConsumed | module/apt_usbtrx_core.c:651-672 | in any state the header read takes four bytes, or all there are, out of the ring, and the thread goes on if and only if their second is a length from 4 to 82 |
| Transmit.StopLeavesNothingBehind | module/ep1_cf02a/ep1_cf02a_fops.c:1826-1840 | when the stop routine goes on, every message accepted before it asked has been given to the bus or cleared |
| BitCount.CountBitsCounts | module/ep1_ag08a/ep1_ag08a_fops.c:12-19 | the octal masks and the remainder by 63 count the bits |
| BitCount.AndThreeDigits | module/ep1_ag08a/ep1_ag08a_fops.c:15-17 | masking works octal digit by octal digit |
| HostTimestamps.AnalogRecordSize | module/ep1_ag08a/ep1_ag08a_fops.c:26-48 | an analog record has nine bytes and two for each channel; without channels it is an error |
| HostTimestamps.DevicesAreUsable | module/ep1_ag08a/ep1_ag08a_fops.c:26-48 | the record sizes of both kinds of device hold a timestamp, which the walk over a buffer relies on |
| HostTimestamps.TimestampDenotes | module/apt_usbtrx_fops.c:74-79 | seconds and microseconds denote the time, with microseconds below a million, if and only if the seconds fit 32 bits |
| HostTimestamps.EveryRecordIsStamped | module/apt_usbtrx_fops.c:63-97 | in whole records every timestamp is rewritten once and no other byte changes |
| HostTimestamps.ParseRbmsg | module/apt_usbtrx_fops.c:43-100 | the loop in place computes the walk over any buffer, bad sizes and cut records included; in device mode no byte changes; in host mode, over whole records, the first eight bytes of each read as seconds and microseconds of the given time, lowest byte first, while the seconds fit 32 bits, every other byte stays, and the walk succeeds |
| HostTimestamps.LastRecordEndsWalk | module/apt_usbtrx_fops.c:63-97 | behind whole records, a record of a bad size or one that is cut off is stamped as well and ends the walk, with an error if and only if its size is negative or above 78 |
| LostFrames.BooksAreRight | tools/ep1_cf02a/ep1_cf02a_get_store_data_list/ep1_cf02a_get_store_data_list.c:449-507 | over any frames: tracked ids are distinct, and the total is the sum over them of largest less first less advances, and of what is counted again after a counter of 2^64 - 1; errors are frames of the wrong length or without a tracker |
| LostFrames.LostIsMissingIff | tools/ep1_cf02a/ep1_cf02a_get_store_data_list/ep1_cf02a_get_store_data_list.c:468-505 | the total is what is missing, if and only if for every tracked id each counter after a 2^64 - 1 is at most one more than the largest since then, counting up from 0; otherwise it is more |
| LostFrames.MissingMeans | tools/ep1_cf02a/ep1_cf02a_get_store_data_list/ep1_cf02a_get_store_data_list.c:468-505 | what is reported is what never arrived plus what arrived late |
| LostFrames.InOrderIsExact | tools/ep1_cf02a/ep1_cf02a_get_store_data_list/ep1_cf02a_get_store_data_list.c:468-505 | in order, exactly the missing counters are reported |
| LostFrames.WrapLosesCount | tools/ep1_cf02a/ep1_cf02a_get_store_data_list/ep1_cf02a_get_store_data_list.c:469-472 | two frames, the first with the largest counter, of which five are counted as lost |
| LostFrames.Checker.FindOrCreate | tools/ep1_cf02a/ep1_cf02a_get_store_data_list/ep1_cf02a_get_store_data_list.c:100-116 | the loop finds the first tracker of the id, adds one while there is room, and tells when there is none |
| LostFrames.Checker.Check | tools/ep1_cf02a/ep1_cf02a_get_store_data_list/ep1_cf02a_get_store_data_list.c:449-507 | after any sequence of rounds the tables hold the books of all frames, their totals modulo 2^64 |

## Left out

- USB, URB and DMA allocation, probing, sysfs, SocketCAN and IIO registration: kernel services; a transfer is a byte sequence arriving or a token in flight.
- The ioctl wrappers and the command functions built on `ep1_cf02a_cmd_common`: they repeat one transaction.
- Baud-rate, send-rate and voltage tables, and the trigger polarity of the AP-CT2A: finite tables, and a pack and parse that disagree.
- `apt_usbtrx_ringbuffer_read`: the same as the raw read when the copy to user memory succeeds.
- Transactions while reception is off, which poll the bus themselves.
- The choice of the first, middle or last firmware command from `fw_count`: `Transmit` models only the writer's use of the semaphore.
- Hardware memory ordering, a clear seen between its two stores, jiffies wrap-around, several writers on one ring.
- The closing of the device (`onclosing`) in `StoreData` and `SyncCommand`.
- Frames.MsgParse: the repeated end-byte and payload-size checks after the length check can never fail and are not branches of the model.
- BitTiming.CalcBittiming: the timing structure is passed and returned as a value, so an error path does not show which of its fields were already overwritten.
- SyncCommand.SuccessIsOwn: a reply is its head and the first byte of its payload, and a copy is torn between the two; it makes no claim on get commands, whose search may go on in stale bytes.
- BitTiming.CheckIsRange: segment 1 is a sum that fits an `int`, and the greatest jump width is below 2^31.
- SamplePoint.NearestIff: nothing for products that wrap around, which `SamplePoint.BestRoundingSplits` covers.
- LateSamplePoints.ResultsInLimitsIff: for tables whose segment 2 has three ticks, only nominal sample points whose products do not wrap around; nothing for fewer ticks. The driver's tables have 16 and 128.
- SamplePoint.InLimitsIffBelowOvershoot: the same tables.
- Transmit.RateIsBounded: `tx_transfer_max_token` is fixed during a run.
- HostTimestamps.ParseRbmsg: requires that the bytes the walk touches lie in the buffer; whole records always do.
- Receiver.Receiver.OnTransfer: what `apt_usbtrx_dispatch_msg` does with a message is a log here; its cases are in `StoreData`, `SyncCommand` and `Transmit`.
