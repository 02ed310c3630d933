# CATP v1, modelled and proved in Dafny

CATP is an authenticated, connectionless telemetry protocol. A node stamps each datagram with an
epoch and a 1/4096-second tick, signs it under a key derived from the epoch, and sends it once. A
collector reconstructs the epoch from four bits, checks the tag, checks the tick against a sliding
replay window, and only then frames the payload and consults a token bucket. This project models
that sender, codec and receiver, and the two artifacts beside them: the cold-start node clock and
the provisioning bundle. The cryptographic primitives are uninterpreted functions; everything around
them is the model.

`dafny verify dfyconfig.toml` checks the whole project.

## How the model is laid out

Each file is one module, in the order in which the results build on each other.

| module | models |
|---|---|
| `Basics` | integer widths, registries, the error type, byte order, writing into a buffer |
| `Words`, `Replay` | the ring bitmap of `ReplayWindow` over a real array of 64-bit words |
| `Clock` | tick arithmetic, epoch reconstruction, `Pacer` |
| `Limiter` | `InboundLimiter` with its saturating 64-bit arithmetic |
| `Mac` | key-schedule input, tag selection, the staging loop of `mac_parts` |
| `Readings` | NUMBER and the delta-coded SERIES |
| `Records`, `Wire` | record framing, datagram header, builders, the in-place encoders |
| `Verify`, `RoundTrips` | the ten-step verifier, and encoder and primitives against verifier |
| `Refusals` | which bytes are refused with which error |
| `Peer`, `PeerRuns` | `PeerState` with its two window slots, and whole receiver runs |
| `ClockSteps` | receiver runs on a clock that may go back |
| `Collectors`, `Fleet` | `Collector`, its totals, runs over many senders, and senders' datagrams reaching their peers |
| `NodeClocks` | `NodeClock` over every sequence of operations |
| `Link` | sender, network and receiver composed under an ideal MAC |
| `Controls`, `Provisioning`, `BundleRoundTrip`, `BundleLanguage` | control payloads and the textual bundle |
| `Vectors` | the bit layout, anchored to published conformance vectors |

What the source updates in place is a class here, over arrays where the source has arrays; what it
computes is a function. Every class method ties its new state to a function of the old one, and the
theorems are about those functions and about runs of them.

Three refinements carry the weight. The ring bitmap decides as the set of everything ever accepted
would (`Replay.ReplayWindow.CheckAndSet`). The pruned, lazily allocated two-slot array decides as a
history of (epoch, offset) pairs without bound would (`Peer.PeerState.Accept`), and a collector of such
peers as a map of simple receivers (`Collectors.Serve`). The saturating token bucket computes what
unbounded integers would (`Limiter.InboundLimiter.TryAcquire`). On top of them stand the run-level
results, and `Link.EndToEnd` composes pacer, codec, verifier and replay protection; `Link.Drive` shows
that the objects themselves make such runs.

Unsigned shifts and masks on disjoint fields are written as multiplication, division and remainder.
A bitmap word is a number below 2^64 with its bit operations defined bit by bit (`Words`).

## What the runs assume

- One `PeerState` serves one direction: windows are keyed by epoch alone.
- The theorems that nothing is accepted twice assume a receiver whose `local_epoch` does not go back,
  because pruning drops windows newer than the clock. The objects and the conservation results do
  not. `ClockSteps` gives the exact condition: no epoch leaves the acceptance window and re-enters it.
- Under an ideal MAC the network's bytes end in a genuine tag - the suite's primitive over the image,
  spelled out in `RoundTrips.Genuine` - only if the sender signed that image. This is an assumption of
  `Link.EndToEnd` about the network and the primitives, not a claim about them.
- The interval bound of the limiter takes times that do not go back, and needs them
  (`Limiter.IntervalBoundExactly`); `Limiter.GrantLaw` and `Limiter.CountedTimeBound` do not.

## Where the code and its comments differ

The model follows the code.

- The comment at `src/peer.rs:47-49` says only a collector records `unknown_sender`. A `PeerState`
  handed a datagram of another sender records it too (`PeerRuns.UnknownSenderExactly`).
- The comment at `src/peer.rs:101-105` says `Oversize` never reaches the receive path. Under suite
  0x03 a payload beyond 499 bytes returns it, and no counter moves (`PeerRuns.OversizeExactly`,
  `PeerRuns.OversizeOccurs`).
- The comment at `src/lib.rs:625` speaks of 2 transmitted epoch bits; the code compares 4.
- The compile-time check `WORDS > 0` at `src/lib.rs:670-675` does not keep `ENTRIES` positive: the
  cast to 32 bits keeps the word count modulo 2^26 (`Replay.EntriesVanish`).
- The record writer checks only the body (`src/wire.rs:44`), so some records it writes do not read
  back as themselves; `Records.WriterChecksLess` says exactly which.
- `last_epoch` can fall when an asserted time lies beyond the last 32-bit epoch, because the cast at
  `src/peer.rs:499` truncates (`NodeClocks.FloorFallsExactly`, `NodeClocks.CastLowersFloor`).

## Model

| member | source | states |
|---|---|---|
| `Words.OrBitSets` | src/lib.rs:682-689 | setting one bit of a word sets that bit and no other |
| `Words.AndNotBitClears` | src/lib.rs:702-706 | clearing one bit of a word clears that bit and no other |
| `Replay.EntriesVanish` | src/lib.rs:663-675 | the entry count after the 32-bit cast, for every word count: zero exactly at multiples of 2^26 |
| `Replay.MarkChangesOne` | src/lib.rs:682-689 | marking or clearing one ring index changes what is read at that index only |
| `Replay.SlideByOne` | src/lib.rs:700-706 | clearing one residue moves the covered span up by one offset |
| `Replay.JumpWhenClear` | src/lib.rs:700-706 | capping the clearing loop at ENTRIES is enough: a clear ring covers any span higher up |
| `Replay.MarkAccepts` | src/lib.rs:707-708 | marking an offset inside the span records exactly that offset |
| `Replay.ReplayWindow.constructor` | src/lib.rs:666-680 | a new window, of any word count, has accepted nothing |
| `Replay.ReplayWindow.SlidePast` | src/lib.rs:699-706 | after the clearing loop no wrapped index is stale |
| `Replay.ReplayWindow.CheckAndSet` | src/lib.rs:691-722 | accepts exactly when nothing was accepted, or the offset exceeds all accepted, or it is new and less than ENTRIES below the newest; a rejection changes nothing |
| `Clock.ClockIsExact` | src/lib.rs:612-621 | epoch * 2^19 + offset is floor((secs * 10^9 + nanos) * 4096 / 10^9) if and only if no cast truncates and no tick carries |
| `Clock.ClockWraps` | src/lib.rs:612-621 | on every input the offset is the tick count modulo 2^19, and instants 2^32 epochs apart show the same pair |
| `Clock.RealInstantsInRange` | src/lib.rs:612-621 | below epoch 2^32, nanoseconds below 10^9 never carry |
| `Clock.TimeOrderIsPairOrder` | src/lib.rs:612-621 | time order is lexicographic (epoch, offset) order |
| `Clock.ReconstructOwnEpoch` | src/lib.rs:627-636 | a sent epoch is recovered by exactly the receivers in that epoch or the next |
| `Clock.Pacer.ClaimAt` | src/lib.rs:763-777 | the claim issues the clock's pair or refuses it, and what it remembers afterwards |
| `Clock.PacerRemembersLast` | src/lib.rs:749-777 | over any run the pacer's state is the last pair it issued |
| `Clock.IssuedPairsIncrease` | src/lib.rs:742-777 | issued pairs strictly increase if and only if the epochs shown never decrease; backward steps inside an epoch do no harm |
| `Clock.RefusedOnlyForReuse` | src/lib.rs:759-777 | a claim is refused, naming its tick, exactly when that is at or below one issued in that epoch; otherwise the clock's pair is issued |
| `Clock.BackwardEpochReissues` | src/lib.rs:766-769 | with epochs going back, a pair is issued twice |
| `Clock.RebootContinues` | src/lib.rs:744-747 | a fresh pacer after an outage issues only pairs beyond every earlier one |
| `Limiter.InboundLimiter.TryAcquire` | src/lib.rs:852-871 | the saturating 64-bit code equals the unbounded-integer bucket |
| `Limiter.LevelIsLeastBalance` | src/lib.rs:837-871 | the level at a call is the least balance counted from any earlier call, and some call attains it |
| `Limiter.GrantLaw` | src/lib.rs:837-871 | a call is granted if and only if, counting from every earlier call, grants plus one fit in max(burst, 1) tokens and per_sec tokens a second of counted time; for all limits and times |
| `Limiter.CountedTimeBound` | src/lib.rs:837-871 | on any clock, every stretch of calls is granted at most max(burst, 1) plus per_sec times the counted seconds |
| `Limiter.IntervalBound` | src/lib.rs:780-797 | on a clock that does not go back, at most max(burst, 1) plus per_sec times the seconds elapsed |
| `Limiter.IntervalBoundExactly` | src/lib.rs:780-797 | that bound holds of every stretch under every limit if and only if the times do not go back |
| `Limiter.BackwardStepGrantsTwice` | src/lib.rs:848-854 | every backward step long enough to refill a single-token bucket grants twice at one instant, beyond the bound |
| `Mac.EpochKeyInfoInjective` | src/lib.rs:429-444 | sender, epoch and direction are recoverable from the key-derivation input |
| `Mac.StageParts` | src/lib.rs:565-574 | the stage holds the concatenation, or staging stops at the first part that does not fit 512 bytes |
| `Mac.OverflowMeans` | src/lib.rs:565-574 | the refusal names the length of the parts up to and including that one |
| `Mac.FeedParts` | src/lib.rs:529-549 | a streaming primitive sees the concatenation of the parts |
| `Mac.MacParts` | src/lib.rs:507-583 | the tag is that of the concatenation however it is split; exact refusals; nothing but the tag is written |
| `Mac.MacVec` | src/lib.rs:471-496 | the allocating form gives the same tag and the same refusal |
| `Readings.NumberBijection` | src/lib.rs:322-331 | a payload is accepted as a number exactly when it is that number's encoding |
| `Readings.SeriesFaultIffNotReadings` | src/wire.rs:206-236 | the builder refuses exactly the readings no SERIES can carry |
| `Readings.BuildSeries` | src/wire.rs:199-240 | the delta loop writes the entries of the readings, or reports the first fault in source order |
| `Readings.ValidateSeries` | src/lib.rs:345-383 | the accumulating loop decodes, or reports the first fault in source order |
| `Readings.SeriesBijection` | src/lib.rs:345-383 | a payload is accepted at an anchor with these readings if and only if they are carriable, start there, and build exactly those bytes |
| `Readings.LinkedIncrease` | src/lib.rs:338-344 | accepted instants strictly increase |
| `Records.DecodeIff` | src/wire.rs:68-98 | a buffer reads as a record if and only if the record is wire-valid and its encoding is a prefix |
| `Records.WriterChecksLess` | src/wire.rs:43-57 | a written record reads back as itself exactly when format is 1..15 and schema version is not 0 |
| `Records.WriteInto` | src/wire.rs:43-57 | writes exactly the encoding at its place, or refuses without writing |
| `Records.ParseIff` | src/wire.rs:704-715 | a payload parses as these records if and only if they are wire-valid and it is their concatenation: acceptance and uniqueness |
| `Records.ParseLoop` | src/wire.rs:708-717 | the loop terminates with that parse, and the trailing-bytes test is dead |
| `Records.PartitionInterleaves` | src/wire.rs:732-741 | kept and skipped are complementary subsequences in order, split by layout |
| `Wire.HeaderParsesBack` | src/wire.rs:262-269 | packed header fields read back |
| `Wire.HeaderRebuilds` | src/wire.rs:640-646 | a read header packs back to its nine bytes |
| `Wire.SignedImageInjective` | src/wire.rs:271-294 | equal signed images agree on every field but epoch_low, on the full epoch and on the payload |
| `Wire.SignedRecordsInjective` | src/wire.rs:271-294 | and, for record-framed datagrams, on the record list |
| `Wire.SeriesDatagram` | src/wire.rs:199-240 | the SERIES builder as a whole |
| `Wire.PayloadInto` | src/wire.rs:309-326 | writes exactly the payload; exact refusals; later bytes untouched |
| `Wire.RecordsInto` | src/wire.rs:317-321 | no record in the loop ever meets a short buffer |
| `Wire.EncodeInto` | src/wire.rs:344-378 | BufferTooSmall for a registered suite exactly when the buffer is shorter than the need; otherwise the uncapped encoding overwrites a prefix and nothing else |
| `Wire.Encode` | src/wire.rs:381-402 | the same bytes under a size ceiling |
| `Verify.OpenDatagram` | src/wire.rs:636-697 | steps 1 to 7 in order, with their errors |
| `Verify.FrameDatagram` | src/wire.rs:703-730 | step 9 for every message type, with its errors |
| `Verify.DecodeDatagram` | src/wire.rs:629-749 | the whole verifier; the window changes by exactly the offset, exactly when the tag verifies and the offset is fresh, whatever framing decides |
| `Refusals.RefusedByFirstFilter` | src/wire.rs:636-697 | from the raw bytes, which error each buffer meets first; past the filters only the tag can refuse |
| `Refusals.RecordRefusals` | src/wire.rs:68-98 | from the raw bytes, which error a record is refused with, or what it reads as |
| `Refusals.FirstBadRecord` | src/wire.rs:704-717 | a payload that does not parse is readable records followed by one that is refused, whose error is reported |
| `Refusals.FirstBadEntryDecides` | src/lib.rs:362-378 | the first delta that is zero or crosses the epoch decides the error of a SERIES, whatever follows |
| `Refusals.SeriesBuilds` | src/wire.rs:199-240 | the builder's refusals in order, with the first bad gap, and the datagram it otherwise builds |
| `Refusals.FirstUnencodableIs` | src/wire.rs:43-57 | the first body that is empty or beyond 4095 bytes is the one reported |
| `RoundTrips.DataWellFormed` | src/wire.rs:133-158 | what the record builder returns is well-formed, for all reserved bits |
| `RoundTrips.NumberWellFormed` | src/wire.rs:163-187 | likewise for NUMBER, which reads back its value |
| `RoundTrips.SeriesWellFormed` | src/wire.rs:199-240 | likewise for SERIES, which reads back its readings |
| `RoundTrips.ControlWellFormed` | src/wire.rs:243-260 | likewise for control types other than the two time messages |
| `RoundTrips.OpenIff` | src/wire.rs:636-697 | steps 1 to 7 open a buffer if and only if it is a header, a payload and the tag over their signed image |
| `RoundTrips.OpensIffGenuine` | src/wire.rs:682-697 | over the primitives alone: a frame opens if and only if it ends in the suite's truncated primitive of header, full epoch and payload under the derived key; otherwise AuthFailed, or Oversize |
| `RoundTrips.OpenedIsGenuine` | src/wire.rs:682-697 | whatever opens ends in that value |
| `RoundTrips.EncodedIsGenuine` | src/wire.rs:344-378 | what the encoder writes is the header, the payload and that value |
| `RoundTrips.TagDoesNotTransfer` | src/lib.rs:529-583 | a frame carrying the tag of another, from which the primitive tells it apart, fails authentication |
| `RoundTrips.DecodeAfterEncode` | src/wire.rs:344-402 | an encoded well-formed datagram is accepted in its epoch or the next, giving back fields, epoch and payload |
| `RoundTrips.EncodingFailsOnlyOversize` | src/wire.rs:339-378 | encoding a well-formed datagram fails only for suite 0x03 beyond 499 payload bytes |
| `RoundTrips.EncodeAfterDecode` | fuzz/fuzz_targets/decode_roundtrip.rs:39-45 | every accepted byte string is the encoding of one well-formed datagram; without skips, of the accepted one |
| `Peer.EvictionUnreachable` | src/peer.rs:199-206 | after a prune the eviction fallback cannot fire for an epoch of the acceptance window |
| `Peer.AbsentIsEmpty` | src/peer.rs:207-219 | an epoch of the acceptance window without a slot has consumed nothing |
| `Peer.CoveredAfterPrune` | src/peer.rs:182-190 | on any clock, a prune keeps every remembered epoch the receiver can still reconstruct |
| `Peer.ScreenOpensTheSame` | src/peer.rs:257-264 | reconstructing the epoch first only moves one error forward |
| `Peer.PeerState.New` | src/peer.rs:164-176 | refuses exactly a mandatory-limit suite without a limit |
| `Peer.PeerState.Prune` | src/peer.rs:182-190 | leaves at most two slots, of distinct epochs within the acceptance window; forgets nothing unless the clock goes back, and then all but the epochs of both windows |
| `Peer.PeerState.WindowFor` | src/peer.rs:206-229 | the epoch's own slot, else the first free one, else the first; a new window is empty |
| `Peer.PeerState.Place` | src/peer.rs:206-229 | short of eviction, finds or allocates the epoch's window and the refinement still holds |
| `Peer.PeerState.Locate` | src/peer.rs:264-266 | after prune and lookup the slot is the epoch's and the refinement still holds |
| `Peer.PeerState.DecodeAt` | src/peer.rs:266-267 | decoding against the slot extends the history by exactly the consumed pair |
| `Peer.PeerState.Accept` | src/peer.rs:238-274 | on any clock, the two-slot array with pruning and lazy allocation decides as the history it remembers does; the limiter moves only after a full decode |
| `Peer.AnnouncedIsHighest` | src/peer.rs:293-304 | over any run of announcements a target is accepted exactly when it exceeds every target announced before it, and refused with the highest of them |
| `PeerRuns.NextRemembers` | src/peer.rs:250-274 | on any clock, one call adds a new pair to what is remembered, or nothing at all |
| `PeerRuns.NextHistory` | src/peer.rs:250-274 | on a clock that does not go back nothing is forgotten: the history is everything consumed |
| `PeerRuns.NoPairTwice` | src/lib.rs:640-651 | in any run on a clock that does not go back no (epoch, offset) passes the replay check twice |
| `PeerRuns.AcceptedConsumes` | src/peer.rs:267-273 | whatever is accepted consumed its own pair |
| `PeerRuns.StaleForever` | src/lib.rs:711-717 | once a pair is stale, every later delivery of it is a replay, whatever comes between |
| `PeerRuns.UnconsumingCallsAreInvisible` | src/peer.rs:257-267 | on a clock that does not go back, deleting every call that consumed no offset leaves every remaining verdict unchanged |
| `PeerRuns.ConsumingKeepsClockOrder` | src/peer.rs:238-244 | the remaining calls are a run of the same kind |
| `ClockSteps.ReplayGuaranteeExactly` | src/peer.rs:182-190 | for every sequence of local epochs, going back or not: no traffic passes a pair twice if and only if no epoch leaves the acceptance window and re-enters it |
| `ClockSteps.DeletionInvisibleExactly` | src/peer.rs:257-267 | and under exactly the same condition deleting the calls that consumed nothing never changes a remaining verdict |
| `PeerRuns.OversizeExactly` | src/wire.rs:691-697 | the uncounted outcome: suite 0x03, filters passed, payload beyond 499 bytes, and only then |
| `PeerRuns.OversizeOccurs` | src/peer.rs:101-105 | from every state of a suite-0x03 receiver some call has that outcome and moves no counter |
| `PeerRuns.UnknownSenderExactly` | src/wire.rs:640-662 | when a peer itself reports, and counts, another sender's datagram |
| `PeerRuns.StepConserves` | src/peer.rs:75-108 | one call moves exactly one outcome counter, unless it is oversize |
| `PeerRuns.OutcomesAreConserved` | src/peer.rs:75-108 | over any run the eleven counters sum to the calls less the oversize ones, and skipped_records to the skipped lists |
| `PeerRuns.EachOutcomeIsCounted` | src/peer.rs:82-125 | over any run each of the eleven counters grows by exactly the number of results of its own kind, framing by its four errors |
| `PeerRuns.LimiterSeesDecodedOnly` | src/peer.rs:267-273 | the limiter in place is the stand-alone limiter called at the decoded datagrams' times |
| `PeerRuns.AcceptedWithinBudget` | src/lib.rs:780-797 | a rate-limited run accepts at most max(burst, 1) plus per_sec times the seconds counted over its decoded datagrams; on a monotonic clock, the seconds they span |
| `Collectors.Collector.Provision` | src/peer.rs:356-360 | inserts a fresh peer under its sender_id, or refuses and changes nothing |
| `Collectors.Collector.Accept` | src/peer.rs:371-391 | routes to one peer and leaves every other untouched, or counts the discard |
| `Collectors.Collector.TotalStats` | src/peer.rs:396-402 | the totals, whatever the iteration order |
| `Collectors.SumTakesAny` | src/peer.rs:398-400 | the sum over peers does not depend on which is taken first |
| `Collectors.Serve` | tools/src/bin/collector.rs:210-218 | the receive loop, with provisioning between datagrams and on any clock, gives the verdicts and state of the simple registry |
| `Collectors.ProjectsToPeerRun` | src/peer.rs:366-391 | a collector run seen from one sender, up to its next provisioning, is that peer's own run |
| `Collectors.TotalsAreConserved` | src/peer.rs:393-402 | over any run with provisioning, the totals and what replaced peers had counted conserve outcomes and skipped records |
| `Collectors.EachTotalIsCounted` | src/peer.rs:393-402 | and each counter of them grows by exactly the number of results of its own kind |
| `Collectors.ProvisioningTotals` | src/peer.rs:356-360 | provisioning keeps every counter of the totals, less what a replaced peer had counted |
| `Collectors.FirstProvisioningDropsNothing` | src/peer.rs:356-360 | if no sender is provisioned twice, nothing is dropped over the whole run |
| `Fleet.RoutesOnHeader` | src/peer.rs:382 | the bytes routed on are the sender field of the header |
| `Fleet.UnknownSenderAtCollector` | src/peer.rs:371-391 | a collector reports an unknown sender exactly when the header names one that is not provisioned, and moves only that counter |
| `Fleet.SentReachesItsPeer` | src/peer.rs:371-391 | a sent datagram delivered in its epoch or the next gets its own peer's verdict: accepted as sent unless stale or out of budget; nothing else changes |
| `NodeClocks.NodeClock.RecordTimeRequest` | src/peer.rs:464-467 | the next permitted instant and the doubled, capped backoff |
| `NodeClocks.NodeClock.AcceptTimeAnnounce` | src/peer.rs:485-503 | both refusals and the one success, with the whole new state, for all 64-bit arguments |
| `NodeClocks.RecoveredTimeAdvances` | src/peer.rs:505-511 | after a success, whatever follows, now(raw) is the asserted time plus what the raw clock has advanced, even where the correction overflowed |
| `NodeClocks.ClockOnlyFromAnnouncement` | src/peer.rs:505-511 | a node tells time exactly if it booted with a clock or some announcement has succeeded |
| `NodeClocks.ValidIsForever` | src/peer.rs:486-491 | validity, floor and correction never change again once set |
| `NodeClocks.AnnouncedAtMostOnce` | src/peer.rs:479-503 | a TIME_ANNOUNCE succeeds at most once, only without a clock, only beyond the floor |
| `NodeClocks.FirstBeyondFloorSucceeds` | src/peer.rs:485-503 | what each announcement of a run is answered: the first beyond the floor succeeds, earlier ones are rollbacks, later ones are discarded |
| `NodeClocks.StoredEpochHoldsAssertion` | src/peer.rs:494-499 | after a success the stored epoch contains the asserted time if and only if that epoch fits 32 bits |
| `NodeClocks.RebootKeepsFloor` | src/peer.rs:479-499 | a node rebooted with the stored epoch refuses every assertion at or below that epoch's start |
| `NodeClocks.FloorFallsExactly` | src/peer.rs:494-499 | a success lowers last_epoch if and only if the assertion lies past 32-bit epochs and the cast cuts it below the stored one |
| `NodeClocks.CastLowersFloor` | src/peer.rs:499 | an assertion at epoch 2^32 resets the floor to zero |
| `NodeClocks.FloorNeverFallsExactly` | src/peer.rs:494-499 | over any run last_epoch never decreases if and only if no succeeding announcement is of that kind |
| `NodeClocks.BackoffIsPowerCapped` | src/peer.rs:464-467 | the k-th backoff is min(2^(k+1), 3600) |
| `NodeClocks.ScheduleIgnoresRefusals` | src/peer.rs:464-467 | before a success the schedule depends on the requests alone: refused announcements change nothing of it |
| `NodeClocks.PermittedExactly` | src/peer.rs:455-467 | when the next request is permitted, from the operations alone |
| `NodeClocks.NoRequestAfterSuccess` | src/peer.rs:455-457 | a success ends the permitted requests |
| `NodeClocks.RequestGap` | src/peer.rs:455-467 | over every sequence of operations, permitted requests are min(2^(k+1), 3600) seconds apart, up to the saturating end of the clock |
| `NodeClocks.SpanCoversWaiting` | src/peer.rs:459-467 | any k gaps in a row, wherever they begin, take at least the first k backoffs together |
| `NodeClocks.RequestsInSpan` | src/peer.rs:459-467 | in any span of time, n requests need 2^n - 2 seconds up to a dozen of them, and an hour for each one beyond |
| `Link.OpenedWasSigned` | src/wire.rs:682-697 | under ideal primitives whatever passes steps 1 to 7 is an image the sender signed |
| `Link.AcceptedIsSent` | src/wire.rs:691-697 | under an ideal MAC an accepted datagram is one that was sent, split by layout |
| `Link.SendKeeps` | src/lib.rs:763-777 | a send keeps every invariant of the link |
| `Link.DeliverKeeps` | src/peer.rs:250-274 | a delivery of any bytes keeps every invariant of the link |
| `Link.RunAcceptsOnce` | src/peer.rs:250-274 | on a receiver clock that does not go back nothing is accepted twice, with or without an ideal MAC |
| `Link.EndToEnd` | src/peer.rs:250-274 | over every run no pair is sent twice, what is accepted is what was sent under its pair, and, unless the receiver's clock goes back, nothing is accepted twice |
| `Link.Drive` | src/peer.rs:238-274 | a pacer, the encoder and a peer's state, driven through the events as objects, are such a run |
| `Link.SentIsAccepted` | src/wire.rs:344-402 | a sent datagram delivered in its epoch or the next is accepted unless its pair is stale or the limiter refuses |
| `Controls.EncodeCapability` | src/control.rs:37-51 | the pushed bytes, or the refusal of a list longer than 255 |
| `Controls.CapabilityParsesIffLength` | src/control.rs:53-67 | parsing accepts exactly the payloads meeting the length equation |
| `Controls.CapabilityBijection` | src/control.rs:37-78 | parse and encode are mutual inverses |
| `Controls.ControlBijection` | src/control.rs:83-130 | a payload parses as a control message of a type exactly when it is that message's encoding |
| `Provisioning.ToText` | src/provisioning.rs:105-122 | pushes exactly the bundle's lines |
| `Provisioning.Parse` | src/provisioning.rs:127-191 | the line loop over updated locals, with every fault |
| `BundleLanguage.HexNumber` | src/provisioning.rs:145-160 | a number is an optional plus sign and hex digits of positional value within the field's width |
| `BundleLanguage.HexBytes` | src/provisioning.rs:260-282 | bytes are pairs of hex digits, the high one first |
| `BundleLanguage.FieldsMean` | src/provisioning.rs:163-172 | fields are the runs between blanks |
| `BundleLanguage.BundleMeans` | src/provisioning.rs:127-191 | a text is a bundle if and only if every line is blank, a comment or a readable field and the three scalar fields occur; the last line of each decides, layouts keep their order |
| `BundleLanguage.FirstFaultReported` | src/provisioning.rs:134-183 | the first unreadable line decides the fault; a key that is none of the four is one |
| `BundleLanguage.PrintedText` | src/provisioning.rs:105-122 | the printed text, line by line |
| `Provisioning.HexBytesReadBack` | src/provisioning.rs:260-282 | printed bytes parse back |
| `Provisioning.HexWordReadsBack` | src/provisioning.rs:109-148 | a printed sender_id parses back |
| `BundleRoundTrip.FieldLineSplits` | src/provisioning.rs:135-142 | a printed line trims and splits into its key and its value |
| `BundleRoundTrip.PrintThenParse` | src/provisioning.rs:105-191 | every bundle, with any number of layouts, survives printing and parsing |
| `BundleRoundTrip.CommentsAreFree` | src/provisioning.rs:135-139 | inserting a blank or comment line at any line boundary never changes the parse |
| `BundleRoundTrip.CommentAtEndIsFree` | src/provisioning.rs:135-139 | nor does an unterminated comment at the end, also after an unterminated last line |
| `NodeClocks.NodeClock.MayRequestTime` | src/peer.rs:455-457 | a request is permitted exactly in the states of which the gap law speaks |
| `Vectors.NumberVector` | docs/test-vectors.txt:19-31 | anchor: the datagram with these fields has the published header, signed header and payload bytes |

## Left out

- Peer.PeerState.Accept: its counters are unbounded, not 64 bits wide.
- Replay.ReplayWindow.CheckAndSet: takes a positive entry count; with none the source divides by zero.
- NodeClocks.NodeClock.AcceptTimeAnnounce: a difference beyond 64 bits wraps, as in a build without overflow checks; a build with them stops there. The same holds of `Now`.
- Link.EndToEnd: assumes an ideal MAC; tag lengths and forgery probabilities are not modelled.
- HMAC, SHA-256, SipHash, ChaCha20-Poly1305 and HKDF: uninterpreted functions of key, message and nonce.
- Constant-time comparison and zeroization of secrets.
- TIME_REQUEST and TIME_ANNOUNCE encoding and decoding: fixed layouts with no loop and no replay state; the clock takes an authenticated assertion as its input.
- `format_scaled`, `Display` and the redacting `Debug`: display only.
- `Bundle::into_peer_config`: a field copy behind two one-branch refusals.
- Reading and writing bundle files, directory loading and file permissions.
- The sockets, printing, random generation and vector generation of the command-line tools.
