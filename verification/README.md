# Verification of the plane-feeder userspace

The feeder reads Mode-S messages from an FPGA FIFO, keeps those it can vouch for, puts them in order, stamps
them with a time derived from the GPS pulse, and fans them out over TCP in the Beast and Radarcape formats.
A second set of tools configures the u-blox receiver that delivers the pulse. These modules model that code
and prove what it promises.

| module | part of the system |
|---|---|
| `Words`, `Wrappers`, `Division` | fixed-width integers, `Option` and `Result`, facts about division |
| `Crc`, `CrcPrograms` | polynomial division over GF(2); the table-driven Go checksum and the two Python programs proved against it |
| `Ubx` | the UBX frame codec, its Fletcher checksum, and the resynchronising walker |
| `Tmode`, `Device`, `WriteVerify`, `SurveyIn` | TMODE payloads; the reply channel without nonces; verified writes; survey and rollback |
| `Regs`, `Fifo` | messages, the register FIFO and its pop-on-read contract |
| `Reorder`, `ReorderRun` | the reorder buffer's binary heap and release rule; whole runs of it |
| `Pps`, `PpsRun` | the PPS watcher, one snapshot and over time; the stable register read |
| `Timestamp`, `EdgeChange` | 12 MHz and GPS timestamps in 64-bit arithmetic; their order across a change of reference |
| `Beast`, `BeastStream`, `BeastStuck` | payloads and escaping; the two stream parsers; the states the Go client cannot leave |
| `Radarcape`, `Server`, `Output`, `Reader` | the format state machine, the TCP fan-out, the two together, and what the far end understands |
| `Icao`, `Poller` | the address filter; the poll loop that ties FIFO, filter, buffer and output together |

Objects whose methods update fields are classes here, with the same fields and the same branches; a `View()`,
`Contents()` or ghost log gives the abstract value that the lemmas speak about. What comes from outside is an
argument: each request to the receiver takes the next `Exchange` of an arbitrary script (was it sent, did a
write take effect and what did the receiver keep, which frames arrive, which clock ends the wait), and clocks,
register contents, chrony's answers, connection failures and admissions are parameters of the steps.

## Where the code falls short of what one would expect, and what holds instead

- "The error is nil exactly if the run committed, or was ephemeral and rolled back" holds of all runs exactly
  without the ephemeral option (and for an unknown generation, where nothing is done): an ephemeral run that fails reports its failure even when it rolled back
  (`SurveyIn.NilErrorLawHoldsExactly`; per run, `SurveyIn.RunEndsInOneWay`).
- A run can commit, or report a rollback, although the receiver did not take the write: two stale replies do it,
  one cannot (`SurveyIn.TwoStaleRepliesDeceive`, `SurveyIn.TwoStaleRepliesHideFailedRollback`). What the receiver
  is left with is decided by whether it applied the write (`SurveyIn.RunLeavesReceiverExactly`).
- A GPS timestamp is right, relative to its reference, exactly for messages at most one measured second before the
  edge (`Timestamp.GpsTimestampExact`); relative to the pulse, exactly if the system clock that was read when the
  edge was noticed was in the second that began with it (`Reader.GpsDataReadsTrueTime`): a clock slightly behind
  shifts a whole interval by one second.
- The reference is looked up anew for each burst. Two messages in order of arrival, stamped with the references of
  two successive edges, can get timestamps out of order; none do exactly if the new second measured no more ticks
  than the old (`EdgeChange.OrderKeptAcrossEdgeExactly`).
- An idle flush lets messages go before their window has passed; an arrival older than those then comes out of
  order, although it is within the window (`ReorderRun.LateAfterFlush`, `ReorderRun.InOrderIffNothingTooLate`).
- Clearing bit 47 of a status frame is harmless in GPS format, and in 12 MHz format exactly while the tick
  count is below 2^47 (`Timestamp.StatusTimestampFaithful`).
- A client admitted in the middle of a message can read its stream exactly if it comes before the first frame of
  that message, or is greeted with the renewed greeting, or the message changes no format
  (`Radarcape.MidMessageAdmission`, `Output.Feed.Admit`).
- `beast-client` never reports another frame after an unknown type byte or a truncated frame
  (`BeastStuck.NoWayOnIffStuck`): `main` ignores the remainder `extractFrame` returns, which would get it past an
  unknown type (`BeastStuck.RemainderWouldResync`).
- A reorder window above 184 seconds silently becomes shorter, and a negative one some other window
  (`Reorder.WindowTicksExact`).
- A client's channel is closed by `Stop` exactly if it was registered before the first one; a connection that
  was accepted before and is registered after is never reached (`Server.Server.Stop`, `Server.StopNeverReaches`).

Where comments and code disagree the model follows the code: bit 47 is never set (against `ps/internal/beast/beast.go:17`
and `:143`), and 12 MHz time is twelve hundredths of the counter (against the repository's `README.md:198`).

## Model

| member | source | states |
|---|---|---|
| `Crc.RemainderIsDivision` | ps/internal/crc/crc.go:8-41 | the bit-serial remainder is the unique remainder of polynomial division by 0x1FFF409, for every message of at least 24 bits |
| `Crc.RemainderLinear` | ps/internal/crc/crc.go:32-41 | the syndrome of a sum of two messages is the sum of their syndromes |
| `Crc.BurstDetected` | ps/internal/crc/crc.go:32-41 | any nonzero error confined to 24 consecutive bits changes the syndrome |
| `Crc.RemainderKeepsParity` | ps/internal/crc/crc.go:32-41 | the syndrome has the bit parity of the message |
| `Crc.OddFlipsDetected` | ps/internal/crc/crc.go:32-41 | any odd number of flipped bits changes the syndrome |
| `Crc.OverlaidAddressRecovered` | ps/internal/crc/crc.go:27-41 | a parity field overlaid with an address makes the syndrome that address |
| `CrcPrograms.BuildTable` | ps/internal/crc/crc.go:8-20 | the nested loops fill entry i with i times x^24, reduced |
| `CrcPrograms.Checksum` | ps/internal/crc/crc.go:32-41 | the table-driven loop computes the remainder of the whole message, for every message of three or more bytes |
| `CrcPrograms.TableStep` | ps/internal/crc/crc.go:35-38 | one look-up advances the remainder of the zero-padded prefix by one byte |
| `CrcPrograms.FoldInParity` | ps/internal/crc/crc.go:39 | adding the last three bytes to the padded remainder gives the remainder of the whole message |
| `CrcPrograms.Crc24` | tools/gen_test_vectors.py:27-40 | the generator's register ends as the remainder of the data followed by 24 zero bits |
| `CrcPrograms.ModesCrcOk` | tools/scan_iq.py:73-82 | accepts exactly the 56- and 112-bit messages with remainder zero, although it leaves the tested bits standing |
| `CrcPrograms.SyndromeZero` | tools/scan_iq.py:73-82 | the Go syndrome is the number zero exactly when the remainder the Python check tests is zero |
| `CrcPrograms.GeneratorParityIsSyndrome` | tools/gen_test_vectors.py:27-40 | the generator's parity of some data is the Go syndrome of that data and three zero bytes |
| `CrcPrograms.SyndromeIsAddress` | ps/internal/crc/crc.go:27-41 | a message of any length whose last three bytes are its parity overlaid with three address bytes has that address, as a number, for its syndrome |
| `Ubx.ChecksumFletcher8` | ps/internal/gps/ubx.go:114-120 | the running sums equal the closed form: the sum of the bytes, and the sum weighted by distance from the end, mod 256 |
| `Ubx.Encode` | ps/internal/gps/ubx.go:57-74 | produces the wire form, and nothing exactly for payloads above 65535 bytes |
| `Ubx.DecodeInvertsEncode` | ps/internal/gps/ubx.go:84-109 | decoding returns frame f and length n exactly if the encoding of f is a prefix of the input and has length n |
| `Ubx.DecodeAcceptsExactlyFrames` | ps/internal/gps/ubx.go:84-109 | decoding succeeds exactly on inputs that begin with some frame's encoding |
| `Ubx.AlteredByteRejected` | ps/internal/gps/ubx.go:98-103 | changing any one byte of a frame other than its length bytes makes decoding fail, whatever follows |
| `Ubx.SwappedBytesRejected` | ps/internal/gps/ubx.go:114-120 | so does swapping two unequal neighbours, class and id or two payload bytes |
| `Ubx.FindSync` | ps/internal/gps/client.go:499-506 | the inner loop finds the first sync pair, or that there is none |
| `Ubx.WalkRaw` | ps/internal/gps/client.go:498-515 | the walker's loop dispatches what the recursive walk finds, and terminates |
| `Ubx.WalkDispatchesSlices` | ps/internal/gps/client.go:441-458 | on any input the dispatched frames are disjoint, in order, each a genuine encoding at its place |
| `Ubx.WalkRecoversFrames` | ps/internal/gps/client.go:498-515 | frames separated by gaps free of the sync pair all come out, in order, and nothing else does |
| `Ubx.EveryFrameIsCovered` | ps/internal/gps/client.go:498-515 | on any input, wherever a frame begins, the walker dispatches it or another one that covers its beginning |
| `Tmode.MatchesMeansSameState` | ps/internal/gps/tmode.go:426-524 | the comparison accepts exactly the well-formed pairs with the same mode and the same fields that mode uses |
| `Tmode.MatchesInBytes` | ps/internal/gps/tmode.go:426-524 | the same byte by byte: where each generation keeps the mode, which bytes each mode compares, and which sizes and modes are refused |
| `Tmode.MatchesIsEquivalence` | ps/internal/gps/tmode.go:426-524 | it is symmetric, transitive, and reflexive exactly on well-formed payloads |
| `Tmode.SurveyInMeaning` | ps/internal/gps/tmode.go:54-94 | a receiver matches the survey configuration exactly if it is surveying with the requested duration and limit |
| `Device.DeviceClient.Drain` | ps/internal/gps/client.go:598-615 | empties the channel and counts what it discards |
| `Device.DeviceClient.WaitFor` | ps/internal/gps/client.go:625-646 | returns the first wanted frame, of those still buffered and then of those that arrive; the frames before it are discarded, and those after it stay buffered as far as there is room |
| `Device.DeviceClient.SendAndAwaitResponse` | ps/internal/gps/client.go:690-698 | for any request and any awaited class and id: success returns the first frame of that class and id among those that arrive in this exchange, whatever was left over from earlier ones; it fails exactly if the request was not sent or no such frame arrives, with the error that ended the wait |
| `Device.DeviceClient.SendAndAwaitACK` | ps/internal/gps/client.go:665-682 | the first acknowledgement or refusal that names the class and id of the write decides between success and refusal; without one, the error that ended the wait; and the receiver's settings after each |
| `Device.WriteLeaves` | ps/internal/gps/nav5.go:9-12 | what a write that takes effect leaves in the receiver: of a NAV5 write the masked fields alone, of a TMODE write the mode and the fields it uses; any such value may be kept, and no other setting changes |
| `WriteVerify.WriteVerifySlot` | ps/internal/gps/surveyin.go:279-299 | for any poll and any check: one poll, and a second one only after a reply that fails the check |
| `WriteVerify.WriteAndVerify` | ps/internal/gps/surveyin.go:254-277 | for any frame, poll and check, the loop over the two slots follows the specification of a verified write |
| `WriteVerify.VerifiedWriteIsApplied` | ps/internal/gps/surveyin.go:242-277 | nil means two separate polls with replies that pass the check, and unless both were stale the receiver's setting passes it |
| `WriteVerify.AppliedWriteIsVerified` | ps/internal/gps/surveyin.go:261-299 | an applied write is confirmed exactly if it is acknowledged and each slot is answered with at most one failing reply |
| `WriteVerify.EveryWriterExpects` | ps/internal/gps/surveyin.go:242-277 | the checks of the TMODE, NAV5 and TP5 writers pass on every value a receiver may have after applying what they write, so these results are about all three |
| `WriteVerify.MaskDecides` | ps/internal/gps/nav5.go:58-89 | an applied NAV5 write passes the check exactly if its mask selects the dynamic model or the receiver had it, and one that selects it alone changes neither elevation mask nor fix mode |
| `WriteVerify.Tp5Decides` | ps/internal/gps/tp5.go:74-107 | the pulse check passes exactly the settings with one pulse a second, half a second long, rising, on the UTC grid, whatever the delays and the upper flags |
| `WriteVerify.StaleRepliesDeceive` | ps/internal/gps/surveyin.go:247-256 | from any state, two stale replies make any write look applied |
| `SurveyIn.PollUntilConverged` | ps/internal/gps/surveyin.go:171-240 | the polling loop with its streak flag follows the loop's specification, whose every turn the next two rows give, and returns the status of the last readable reply |
| `SurveyIn.UnansweredTurn` | ps/internal/gps/surveyin.go:190-206 | a poll that nothing answers: if only its own five seconds ran out the streak is broken and the loop goes on at the next tick; the survey's deadline, a cancellation and a failed link end it, each with its own error |
| `SurveyIn.AnsweredTurn` | ps/internal/gps/surveyin.go:207-239 | a poll that is answered: the first frame of the awaited class and id counts; two in a row whose bytes say valid and not active succeed, anything else goes on, and an unreadable one breaks the streak |
| `SurveyIn.TimSvinInBytes` | ps/internal/gps/tmode.go:327-363 | which bytes of an M8 report hold its numbers and flags, signs included, and which lengths are refused |
| `SurveyIn.NavSvinInBytes` | ps/internal/gps/tmode.go:365-408 | the same for F9 |
| `SurveyIn.SurveySucceedsAtFirstPair` | ps/internal/gps/surveyin.go:184-239 | success after n turns exactly if the first pair of consecutive converged reports ends there and no turn before it ended the survey |
| `SurveyIn.SurveyEndsWithTwoReports` | ps/internal/gps/surveyin.go:208-225 | a successful survey took at least two replies, the last two say valid and not active, and so does the status it returns |
| `SurveyIn.OneStaleReportCannotEndSurvey` | ps/internal/gps/surveyin.go:165-172 | unless both reports of the pair that ends the survey are stale, the receiver itself answered one of those two polls with valid and not active |
| `SurveyIn.RunRollback` | ps/internal/gps/surveyin.go:106-116 | restores the cached payload, unchanged and under the id of its generation, through the same verified write; one of the wrong size is refused and nothing is sent |
| `SurveyIn.Survey` | ps/internal/gps/surveyin.go:56-240 | the method with its deferred rollback gives the outcome and the link that the transaction's specification gives |
| `SurveyIn.RunEndsInOneWay` | ps/internal/gps/surveyin.go:30-43 | every run: nothing cached and nothing touched, or exactly one of committed, rolled back, rollback failed; exactly when the error is nil and when the survey itself succeeded; and a nil error comes with a converged status |
| `SurveyIn.NilErrorLawHoldsExactly` | ps/internal/gps/surveyin.go:118-144 | "nil exactly if committed, or ephemeral and rolled back" holds of all runs exactly without the ephemeral option, for either known generation and all thresholds; with an unknown generation, where nothing is done, it always holds |
| `SurveyIn.RunLeavesReceiver` | ps/internal/gps/surveyin.go:86-144 | committed means surveying with the requested duration and limit, rolled back means matching the cached payload, unless both replies of that verification were stale |
| `SurveyIn.RunLeavesReceiverExactly` | ps/internal/gps/surveyin.go:86-144 | a committed run leaves the survey configuration exactly if the configuration write was applied or the receiver was set so before; a rolled-back run leaves the cached payload exactly if the restoring write was applied or the receiver still had it |
| `SurveyIn.RollbackRestores` | ps/internal/gps/surveyin.go:86-144 | the receiver is back in its original state exactly if the cached reply described that state |
| `SurveyIn.MalformedCacheCannotBeRestored` | ps/internal/gps/tmode.go:258-275 | a run reports a rollback only if the cached payload was well formed |
| `SurveyIn.EphemeralFailureIsReported` | ps/internal/gps/surveyin.go:118-144 | for every generation and thresholds there is an ephemeral run that is refused, rolls back, and returns the refusal |
| `SurveyIn.TwoStaleRepliesDeceive` | ps/internal/gps/surveyin.go:247-256 | for every generation and thresholds a run commits on two stale replies although the receiver never took the write |
| `SurveyIn.TwoStaleRepliesHideFailedRollback` | ps/internal/gps/surveyin.go:40-45 | and a run reports a rollback although the receiver keeps the survey configuration |
| `Fifo.MockReader.Push` | ps/internal/regs/mock.go:20-27 | appends to the FIFO and keeps the register window on its head |
| `Fifo.MockReader.Read32` | ps/internal/regs/mock.go:36-82 | every register of the map; the message registers show the oldest message, only reading RPL removes it, and the status bit is set exactly if the FIFO holds one |
| `Fifo.MockReader.SetPps` | ps/internal/regs/mock.go:30-34 | sets what the three PPS registers show, and nothing else |
| `Fifo.ReadMessage` | ps/internal/regs/regs.go:288-301 | takes exactly the oldest message out, whole |
| `Fifo.DecodeMessage` | ps/internal/regs/regs.go:248-286 | the fourteen bytes laid out and reversed by seven swaps are the bytes of the four data registers, least significant first; format 16 and above keeps all, others the first seven; time of arrival and power level are those of their registers |
| `Reorder.WindowTicksExact` | ps/internal/reorder/reorder.go:47 | for every duration, negative ones included, the window has the requested length exactly if duration times clock rate fits 64 unsigned bits |
| `Reorder.RootIsMinimal` | ps/internal/reorder/reorder.go:81 | the root of the heap is a message with the least time of arrival |
| `Reorder.Buffer.constructor` | ps/internal/reorder/reorder.go:39-51 | an empty buffer, with the defaults for a zero clock rate and a non-positive bound |
| `Reorder.Buffer.Up` | ps/internal/reorder/reorder.go:27-30 | sifting up restores the heap and keeps the contents |
| `Reorder.Buffer.Down` | ps/internal/reorder/reorder.go:27-37 | sifting down restores the heap on the first n places and keeps the contents |
| `Reorder.Buffer.HeapPop` | ps/internal/reorder/reorder.go:31-37 | removes one message with the least time of arrival, and the rest is a heap |
| `Reorder.Buffer.Push` | ps/internal/reorder/reorder.go:57-64 | releases a sorted batch in which every message had a reason to leave, and what is held has none |
| `Reorder.Buffer.FlushReady` | ps/internal/reorder/reorder.go:74-90 | releases in order while the oldest is due or too many are held, and stops exactly there |
| `Reorder.Buffer.FlushAll` | ps/internal/reorder/reorder.go:66-72 | returns everything held, sorted |
| `ReorderRun.NothingIsLost` | ps/internal/reorder/reorder.go:57-90 | over any run of pushes and flushes, what is out and what is held is what arrived |
| `ReorderRun.InOrderIffNothingTooLate` | ps/internal/reorder/reorder.go:57-90 | at any point of any run, with flushes in between, what is out is sorted and ahead of what is held exactly if no arrival was older than a message that had already left |
| `ReorderRun.SortedIffNothingTooLate` | ps/internal/reorder/reorder.go:57-90 | a run that ends with a flush puts out its whole input, sorted exactly if nothing came too late |
| `ReorderRun.LateAfterFlush` | ps/internal/reorder/reorder.go:66-72 | after a flush, every arrival older than what was flushed comes out of order, however well within the window |
| `ReorderRun.WithinWindowIsSorted` | ps/internal/reorder/reorder.go:10-12 | in order at every point if every arrival keeps within the window of the newest before it and behind no flush, and the buffer never fills |
| `ReorderRun.HeldAreInsideWindow` | ps/internal/reorder/reorder.go:74-90 | at every point at most maxBuffered messages are held, each still inside the window |
| `ReorderRun.OnlyFirstLeavesEarly` | ps/internal/reorder/reorder.go:80-88 | per push at most one message leaves before its time, as the oldest of maxBuffered + 1 |
| `ReorderRun.Run` | ps/internal/reorder/reorder.go:57-72 | the class, driven through any arrivals and flushes, realises such a run, so its output is in order under the same condition |
| `Pps.SaneMeansNearNominal` | ps/internal/pps/pps.go:104-129 | in signed 64-bit arithmetic the carryover test admits exactly tick rates within 100 ppm |
| `Pps.CarryoverIsExcess` | ps/internal/pps/pps.go:104 | the carryover is the measured ticks less a hundred million, for every 64-bit count, up to the wrap of the sign |
| `Pps.WatcherState.Update` | ps/internal/pps/pps.go:65-143 | the fields after one snapshot, with ring, sum and extremes those of all carryovers so far |
| `Pps.WatcherState.Slot` | ps/internal/pps/pps.go:117-126 | the ring holds exactly the last sixty carryovers and their sum |
| `Pps.RingTurns` | ps/internal/pps/pps.go:121-126 | overwriting the oldest slot keeps ring and sum those of the last sixty |
| `Pps.ExtremesGrow` | ps/internal/pps/pps.go:106-115 | minimum and maximum cover every carryover and are attained |
| `PpsRun.Watcher.OnTick` | ps/internal/pps/pps.go:229-248 | what is published is the reference after all ticks so far |
| `PpsRun.SyncExactly` | ps/internal/pps/pps.go:81-142 | on every run sync is claimed exactly if the latest advance was one edge within 100 ppm and, at every tick since, chrony was in force and the advance at most two seconds old: once lost in a stall it does not return |
| `PpsRun.ChronyExactly` | ps/internal/pps/pps.go:230-241 | chrony is in force exactly while an agreeing answer, from a tick that asked, is at most four seconds old |
| `PpsRun.SyncIsTrustworthy` | ps/internal/pps/pps.go:128-142 | a synchronised reference belongs to an edge at most two seconds old, with a tick rate within 100 ppm and a chrony confirmation at most four seconds old |
| `PpsRun.RefMeasures` | ps/internal/pps/pps.go:88-141 | on every run the reference's measured ticks are the counter's movement per edge between the two latest advances, rounded down; its carryover is their excess over nominal; and it is degraded exactly if edges were skipped |
| `PpsRun.SyncWhileChronyAgrees` | ps/internal/pps/pps.go:229-244 | while chrony agrees whenever it is asked, and ticks come at most a second apart, its confirmation never lapses: sync is claimed exactly after a clean advance that is recent at every tick since |
| `PpsRun.EdgesAddUp` | ps/internal/pps/pps.go:88-102 | first count plus advances plus skipped edges is the current count, mod 2^32 |
| `PpsRun.ReadPpsStable` | ps/internal/regs/regs.go:316-326 | returns count and counter of one single edge, if fewer than 2^32 edges fall into one attempt |
| `Timestamp.TwelveMHzExact` | ps/internal/beast/beast.go:137-139 | 12 MHz time is floor(12 toa / 100) mod 2^48 for every 64-bit counter value |
| `Timestamp.GpsTimestampExact` | ps/internal/beast/beast.go:144-173 | for every measured tick rate within 100 ppm, the timestamp reads back as the time of day that rate gives exactly if the message is at most one measured second before the edge; no product or sum overflows |
| `Timestamp.NominalWithoutMeasurement` | ps/internal/beast/beast.go:149-153 | without a measurement the timestamp is that of the nominal hundred million ticks |
| `Timestamp.FarBackMayCoincide` | ps/internal/beast/beast.go:160-164 | beyond the range of the 64-bit product a wrong computation can give the right answer |
| `Timestamp.GpsTimestampMonotone` | ps/internal/beast/beast.go:144-173 | with one and the same reference, within one UTC day, a later message never gets an earlier timestamp |
| `EdgeChange.TrueTimeInOrder` | ps/internal/pps/pps.go:88-97 | across a change to the next edge, with no more ticks in the new second than in the old, the times of day keep the order of arrival |
| `EdgeChange.OrderKeptAcrossEdgeExactly` | ps/cmd/plane-feeder/main.go:609-626 | of messages stamped with the references of two successive edges, all keep their order exactly if the new second measured no more ticks than the old |
| `Timestamp.StatusTimestampFaithful` | ps/internal/beast/beast.go:85-88 | clearing bit 47 changes nothing in GPS format, and in 12 MHz format exactly while the tick count is below 2^47 |
| `Beast.EscapeFrame` | ps/internal/beast/beast.go:184-194 | the loop doubles every escape and nothing else, behind one leading escape |
| `Beast.AppendTimestamp` | ps/internal/beast/beast.go:176-181 | the shifts append the six base-256 digits |
| `Beast.TimestampReadsBack` | ps/internal/beast/beast.go:176-181 | the six bytes read back as the timestamp |
| `Beast.PayloadsAreWellFormed` | ps/internal/beast/beast.go:48-111 | every data and status payload has a known type and that type's length |
| `Beast.DataInBytes` | ps/internal/beast/beast.go:48-64 | a data payload byte by byte: type by length, the time of the format in six bytes, signal, message |
| `Beast.StatusInBytes` | ps/internal/beast/beast.go:85-111 | a status payload byte by byte: the time in the old format, the new format in its settings and GPS bytes, the rest zero |
| `BeastStream.ExtractFrame` | ps/cmd/beast-client/main.go:115-177 | the index-based extractor computes the recursive one, and the buffer it returns in every case |
| `BeastStream.StreamClient.Receive` | ps/cmd/beast-client/main.go:53-64 | one read and its extraction loop take out everything extractable and keep the rest |
| `BeastStream.NextChunk` | ps/cmd/beast-client/main.go:53-64 | after a chunk of any size exactly the completed payloads have come out, in order, and only the unfinished tail is kept |
| `BeastStream.ReadInChunks` | ps/cmd/beast-client/main.go:53-64 | a stream of frames cut into any chunks is read back exactly, with nothing left over |
| `BeastStream.ExtractFrames` | tools/inspect_live_timestamps.py:61-107 | the Python loop computes its recursive specification |
| `BeastStream.ExtractorsAgree` | tools/inspect_live_timestamps.py:61-107 | on any stream of frames with any unfinished tail the Go client and the Python tool extract the same payloads and keep the same tail |
| `BeastStuck.NoWayOnIffStuck` | ps/cmd/beast-client/main.go:148-166 | no further bytes can make the client report a frame exactly if its buffer begins a frame of unknown type or one cut short |
| `BeastStuck.StuckClientOnlyGrows` | ps/cmd/beast-client/main.go:61-64 | such a client keeps everything it receives and reports nothing |
| `BeastStuck.RemainderWouldResync` | ps/cmd/beast-client/main.go:148-151 | a good frame after one of unknown type is lost to the stuck client, although extracting from the returned remainder finds it |
| `Radarcape.RadarcapeState.Update` | ps/cmd/plane-feeder/main.go:221-228 | desired mode and last good reference after a reference |
| `Radarcape.RadarcapeState.EmitControlFrames` | ps/cmd/plane-feeder/main.go:232-279 | the frames and the state, and that each frame has the reference its format needs |
| `Radarcape.RadarcapeState.WelcomeFrames` | ps/cmd/plane-feeder/main.go:282-289 | a greeting in the current format that can be encoded |
| `Radarcape.WhatGoesOut` | ps/cmd/plane-feeder/main.go:232-279 | which frames precede a message, in every state: at a change of format, and every status interval, one status with the message's time of arrival and the reference its time format needs; a position when it is due |
| `Radarcape.ReadableStep` | ps/cmd/plane-feeder/main.go:535-560 | after each message the stream is readable, and announces the format in force |
| `Radarcape.AdmittedClientCanRead` | ps/cmd/plane-feeder/main.go:453-470 | greeting plus later broadcasts are readable for a client admitted between any two messages of any run |
| `Radarcape.MidMessageAdmission` | ps/cmd/plane-feeder/main.go:542-560 | a client admitted after k frames of a message, before or after the greeting was renewed, can read on exactly if k is zero, or it got the renewed greeting, or the message changed no format |
| `Radarcape.EverythingEncodable` | ps/cmd/plane-feeder/main.go:253-258 | no GPS timestamp is ever asked for without a reference |
| `Radarcape.StatusIsRecent` | ps/cmd/plane-feeder/main.go:265-270 | whenever a message is sent the latest status frame is less than one status interval old |
| `Server.Client.Send` | ps/internal/server/server.go:109-118 | queues the frame if there is room and skips it otherwise; never called on a closed channel |
| `Server.Client.CloseChannel` | ps/internal/server/server.go:61-71 | never called twice |
| `Server.Server.Admit` | ps/internal/server/server.go:77-96 | the greeting is queued before any broadcast, and the client is registered |
| `Server.Server.Broadcast` | ps/internal/server/server.go:109-118 | every registered client is offered the frame once, at its queue length of that moment |
| `Server.Server.RemoveClient` | ps/internal/server/server.go:120-127 | unregisters and closes a registered client, and is harmless otherwise |
| `Server.Server.WriteNext` | ps/internal/server/server.go:162-170 | writes the oldest queued frame, or drops the client when the write fails |
| `Server.Server.Stop` | ps/internal/server/server.go:61-71 | a registered client's channel is closed exactly if this is the first Stop, and never twice |
| `Server.FinishClosed` | ps/internal/server/server.go:162-170 | the writer of a closed client, if no write fails, sends the greeting and every broadcast that found room, and then closes the connection |
| `Server.StopNeverReaches` | ps/internal/server/server.go:129-160 | on any stopped server, a client registered now stays registered with an open channel through any number of further Stops |
| `Server.ClientGetsBroadcasts` | ps/internal/server/server.go:109-118 | a client gets an in-order subsequence of the broadcasts since its admission, and all of them if its queue was never full |
| `Server.OnlyFullQueueMisses` | ps/internal/server/server.go:112-117 | the frames missed number exactly the offers that met 256 queued frames |
| `Output.Feed.constructor` | ps/cmd/plane-feeder/main.go:453-470 | the startup frames become the first greeting |
| `Output.Feed.Begin` | ps/cmd/plane-feeder/main.go:536-542 | a message is taken in: its control frames and then itself are what remains to be broadcast, and the greeting is to be renewed exactly if there are control frames |
| `Output.Feed.BroadcastNext` | ps/cmd/plane-feeder/main.go:543-560 | one broadcast: in the middle of a message too, each client has the greeting of its admission and has been offered exactly the frames sent since |
| `Output.Feed.Renew` | ps/cmd/plane-feeder/main.go:547-550 | the greeting is renewed between the last control frame and the message itself |
| `Output.Feed.Emit` | ps/cmd/plane-feeder/main.go:535-560 | those steps, in that order, send one message completely |
| `Output.DataGoesOut` | ps/cmd/plane-feeder/main.go:553-560 | of any run, the data frames broadcast are its messages, each once and in order, in GPS format with the reference given if that is synchronised and in 12 MHz format otherwise |
| `Output.Feed.Admit` | ps/internal/server/server.go:77-96 | a client may come between any two steps; it can read what follows exactly if it comes between messages, before a message's first frame, after the greeting was renewed, or during a message that changes no format |
| `Output.Feed.WriteNext` | ps/internal/server/server.go:162-170 | a write, failed or not, between any two steps, keeps all this true of every client still registered |
| `Output.Feed.RemoveClient` | ps/internal/server/server.go:120-127 | so does removing a client |
| `Output.Feed.Stop` | ps/internal/server/server.go:61-71 | and so does stopping |
| `Reader.ReaderUnderstands` | ps/internal/beast/beast.go:48-111 | a reader that knows only the bytes and follows the status frames reads format, time, signal and message of every frame as they were meant |
| `Reader.ConnectedClientUnderstands` | ps/cmd/plane-feeder/main.go:535-560 | end to end, in every reachable state, also between two broadcasts of one message: the bytes of a client whose queue was never full parse into the frames sent to it, and if it was admitted where it could know the format, they are understood as meant |
| `Reader.GpsDataReadsTrueTime` | ps/internal/pps/pps.go:128-142 | from pulse to reader: with a reference published as synchronised, the bytes of a data frame read back as the message's time of day, counted from the pulse's own UTC second at the rate between the counters latched at the two latest pulses, exactly if the system clock was read within the second that began at the pulse |
| `Icao.Filter.Add` | ps/internal/icao/filter.go:26-28 | the history gains the address, and the table still answers for it |
| `Icao.Filter.Test` | ps/internal/icao/filter.go:31-41 | answers whether the address was heard within the TTL, whatever was deleted before |
| `Icao.Filter.Expire` | ps/internal/icao/filter.go:49-56 | deletes exactly what is too old, without changing any later answer |
| `Icao.TableAnswersForHistory` | ps/internal/icao/filter.go:31-41 | a table that lost any old entries answers like the full history, at any later time |
| `Icao.DeletingOldIsHarmless` | ps/internal/icao/filter.go:36-38 | deleting an old entry at any moment keeps that agreement |
| `Poller.ClearLowest` | ps/cmd/plane-feeder/main.go:688-690 | v & (v - 1) removes exactly one set bit, so the inner loop counts them |
| `Poller.IsDegenerateShort` | ps/cmd/plane-feeder/main.go:678-693 | recognises exactly the seven-byte frames with fewer than four set bits after the first byte |
| `Poller.RecentMeansVouched` | ps/cmd/plane-feeder/main.go:635-657 | the filter's answer is whether a message read within the TTL announced the address |
| `Poller.TrustedPasses` | ps/cmd/plane-feeder/main.go:640-668 | a message passes the switch exactly if it is to be kept: not of the six formats, or its syndrome is an address that a DF11, 17 or 18 message named in its second to fourth byte within a minute, and no degenerate short frame |
| `Poller.OverlaidReplyIsTrusted` | ps/cmd/plane-feeder/main.go:635-657 | a reply whose parity is overlaid with the address of an aircraft heard within a minute is to be kept, unless it is a degenerate short one |
| `Poller.PassedWereVouched` | ps/cmd/plane-feeder/main.go:640-668 | a message that was let through and carries its address in its parity had it announced within the TTL when it was read |
| `Poller.ReadsArePassedOrRejected` | ps/cmd/plane-feeder/main.go:629-674 | what was read is what was let through and what was rejected, message by message |
| `Poller.Loop.Check` | ps/cmd/plane-feeder/main.go:640-662 | the format switch lets a message through exactly by that rule, and leaves the filter's history alone |
| `Poller.Loop.constructor` | ps/cmd/plane-feeder/main.go:521 | an empty buffer whose window is the configured duration in ticks of the 100 MHz counter, with the configured bound; nothing read, sent or dropped |
| `Poller.Loop.ReadOne` | ps/cmd/plane-feeder/main.go:630-668 | one message leaves the FIFO and is dropped, held or sent; the accounts stay balanced, and what is sent carries the clock reference of the burst and the time of its sending |
| `Poller.Loop.DrainFifo` | ps/cmd/plane-feeder/main.go:622-674 | whatever arrives between its turns, the burst reads everything the FIFO was offered, in order, stops at the first turn that leaves it empty, and sends everything with the one reference it looked up |
| `Poller.Loop.Arrive` | ps/internal/regs/mock.go:20-27 | messages that arrive in the meantime only lengthen the FIFO |
| `Poller.Loop.Idle` | ps/cmd/plane-feeder/main.go:607-620 | with the FIFO empty for a whole window, nothing stays held, and all that was held goes out with the reference given; before that nothing changes |
| `Poller.Loop.Tick` | ps/cmd/plane-feeder/main.go:585-586 | the periodic expiry changes no verdict |
| `Poller.NothingLost` | ps/cmd/plane-feeder/main.go:607-674 | in every reachable state: read = sent + held + dropped, message by message and in the counters |
| `Poller.TrustedAreSentOrHeld` | ps/cmd/plane-feeder/main.go:629-668 | in every reachable state what was sent and what is held are exactly the messages to keep, by multiset: none missing, none besides |
| `Poller.SentInItsFormat` | ps/cmd/plane-feeder/main.go:553-560 | in every reachable state each message sent is on the wire once, in GPS format with its turn's reference if that was synchronised, in 12 MHz format otherwise |
| `Poller.SentInOrderExactly` | ps/cmd/plane-feeder/main.go:607-668 | in every reachable state, idle flushes included, the messages sent are in order of arrival and ahead of those held exactly if none was let through that is older than one already sent |
| `Poller.SentWereVouched` | ps/cmd/plane-feeder/main.go:640-668 | in every reachable state each sent DF0/4/5/16/20/21 message had its address announced at most a minute before it was read |

## Left out

- EdgeChange.OrderKeptAcrossEdgeExactly: a change of reference that spans several edges, or crosses midnight, is not covered.
- GpsTimestampExact: its "only if" half covers edges up to 18,446,744,073 ticks (184 seconds) ahead; further ahead the 64-bit product wraps and `FarBackMayCoincide` shows that the half is false there. The "if" half has no such limit.
- ConnectedClientUnderstands: a client that missed a frame may have missed a status frame; nothing is claimed for it.
- AlteredByteRejected: an altered length byte moves the checksum to other bytes, which may match.
- gpsd's JSON and TCP, sockets, `/dev/mem`, `chronyc`, goroutine scheduling: nondeterministic steps or arguments. Each method of `Server` is one critical section under the mutex.
- Of a NAV5 write's masked fields, dynamic model, minimum elevation and fix mode are modelled.
- A write takes effect when it is sent or not at all; a receiver that applies it later, between two polls, is not modelled.
- `WaitFor`'s select may prefer an ended context to a waiting frame: such a frame counts as not having arrived.
- `dispatchFrame`'s bounded channel: frames it drops simply do not arrive.
- Survey thresholds and the reported accuracy are integers in the receiver's unit, and the signal byte is an arbitrary function of the reference power level: the conversions are floating point.
- The contents of position frames (floating point, and disabled at `ps/cmd/plane-feeder/main.go:445`); their type, length and escaping are modelled.
- The rolling averages of `stats`, the log and dashboard counters, the tracker feed, the rejected-frame ring.
- The poll loop reads the clock several times per message; the model takes one reading for adding, testing and the idle timer.
- The plain mode without Radarcape frames, where every frame is data in 12 MHz time.
- DeviceClient's subscriptions, and the detection of the receiver generation: the generation is an argument.
- Times are readings of the runtime's monotonic clock, which does not go back.
- Python integers used as bit registers are sequences of binary digits, as are the 32-bit words of the checksum; times are unbounded integers in nanoseconds.
- The web server, the other command-line tools, signal processing and HDL.
