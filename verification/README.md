# Verified model of the VITA 49.2 framework core

The framework codes ANSI/VITA 49.2 packets and runs a bounded Controller/Controllee runtime. This project models the
parts of it whose correctness is not visible from any one function, in Dafny 4.11, and proves what they promise.

* **Exact numeric codecs.** `Powers`, `Rounding`, `Dyadic`, `NumericSamples`, `NumericEncoder`, `NumericFormats`,
  `NumericConversion`, `IeeeSamples`, `IeeeEncoder`, `IeeeConvert`, `IeeeFormats`. Proofs work with integers on a common
  power-of-two scale; the results are about real numbers. A word's value is defined from its format alone (`NumericFormats`,
  `IeeeFormats`), and of all words of the format an encoder's result is the one the rounding mode asks for.
* **Drift-free sample time.** `NumberTheory`, `Time`, `SampleTimelines`, `IntervalSearch`, `ReplayWire`. The instant of a
  timeline is a real number; every run of calls moves it by exactly the sample periods and mapping shifts that were asked for.
* **Context and Data publication.** `ContextState`, `Revisions`, `RevisionStores`, `RevisionRuns`, `ContextTraces`,
  `PublisherLedgers`, `ContextPublishers`, `PublisherRuns`, `LateData`, `ReceiverHistories`, `HistoryExpiry`, `ContextDelivery`,
  `ContextReceivers`, `Slots`. The store, the publisher, the receiver history and the receiver are classes over arrays; the publisher
  keeps a ghost record of everything it offers to its transport, whose answers are arbitrary. What each call may do to the publisher is
  a law of `PublisherLedgers` over values. The record's safety is an invariant of every run, and what a receiver can know is proved
  from it alone.
* **Ownership protocols.** `CompletionArenas` is an interleaving of atomic steps by any number of threads, and
  `CompletionProgress` says what its calls achieve, alone and among others. `Counters` and
  `Loopbacks` are the loopback transport with its lanes, packet counters and credits.
* **Wire formats.** `Envelopes`, `EnvelopeRoundTrip`, `EnvelopeCodec`, `WireLayout`; `SampleBits`, `SamplePacking`,
  `SampleCoordinates`, `SampleLayout`, `SegmentedSamples`; `ArrayCifs`, `ArrayCifLaws`, `ArrayCifWalkers`, `ArrayCifLayout`.
  The layout modules say where every part stands, in literal positions.

Where the source changes state step by step the model is a class or a method with loops, proved against a function of the old state;
the laws are lemmas about those functions. `dafny verify dfyconfig.toml` checks everything.

Results worth knowing where code and expectation differ:

* `expire` can turn a stale answer into a certain one when Context arrives out of time order (`HistoryExpiry.OutOfOrderExpiryRevives`);
  `HistoryExpiry.ExpiryRevives` says exactly when, by a condition on two neighbouring entries.
* `sample_ordinal` does not invert `sample_time` at every rate (`ReplayWire.FasterRatesCollide`). It does, at any rate, exactly when
  neither overflows and the picoseconds of the time lost less than one sample period (`ReplayWire.OrdinalInvertsTime`); up to one
  sample per picosecond only overflow stands in the way (`ReplayWire.SlowRatesInvert`).
* The Context of timed Data need not show the state of its own revision: revisions of one time are published together as the latest of
  them, and Data submitted for an earlier one afterwards goes out under that state (`LateData.LateDataTravelsUnderTheLeader`). It shows
  its own state exactly when the dependency was noted before the group was accepted or the leader's state is the same
  (`LateData.DataState`).
* `publication_group` looks at the sample-loss bit of the indicator word even when that field is not known; the model keeps the word
  beside its validity for this reason.

## Model

| member | source | states |
|---|---|---|
| NumericSamples.CompareMeaning | include/vita/codec/numeric_samples.hpp:77-85 | the shift-free comparison is the order of the exact magnitudes on any common scale, for all exponents |
| NumericSamples.QuantizeMeaning | include/vita/codec/numeric_samples.hpp:87-109 | without overflow the magnitude is the correctly rounded multiple of the quantum and the residue flag tells whether anything was lost; overflow exactly when it does not fit 64 bits |
| NumericSamples.CanonicalizeKeeps | include/vita/codec/numeric_samples.hpp:112-119 | succeeds exactly when the exponent stays in range; same value, odd magnitude or zero |
| NumericSamples.CanonicalUnique | include/vita/codec/numeric_samples.hpp:112-119 | canonical forms of one value are identical |
| NumericSamples.DecodeMeaning | include/vita/codec/numeric_samples.hpp:120-130 | every pattern decodes, to sign times magnitude field at the quantum of its exponent field, in canonical form (its real value is `NumericFormats.DecodeIsFormat`) |
| NumericSamples.WordDecodes | include/vita/codec/numeric_samples.hpp:164-168 | assembling a word from magnitude, exponent field and sign and decoding it gives these back |
| NumericEncoder.DomainMeaning | include/vita/codec/numeric_samples.hpp:141-151 | the bound test decides whether the input lies between the least and the greatest value of the format |
| NumericEncoder.FirstFitIsRounded | include/vita/codec/numeric_samples.hpp:152-155 | the first exponent whose rounded mantissa fits gives the value the mode picks among all patterns of all exponents |
| NumericEncoder.FirstFitTiesToEven | include/vita/codec/numeric_samples.hpp:102-105 | under ties-to-even a tie is only won by an even mantissa |
| NumericEncoder.ExactPatternFits | include/vita/codec/numeric_samples.hpp:152-155 | a representable value is found exactly by the search |
| NumericEncoder.SearchExponent | include/vita/codec/numeric_samples.hpp:152-171 | the search over exponents meets the promise: correctly rounded, lowest exponent, rounded flag exact, exact_only succeeds exactly for representable values |
| NumericEncoder.Normalize | include/vita/codec/numeric_samples.hpp:156-163 | doubling back keeps the value and ends at the lowest exponent |
| NumericFormats.DecodeIsFormat | include/vita/codec/numeric_samples.hpp:71-130 | every word of every valid format decodes to the real value its format gives it: the two's-complement or unsigned integer over 2^fractionalBits, a fraction of full scale, or that fraction scaled by the VRT exponent |
| NumericFormats.DecodeAccepts | include/vita/codec/numeric_samples.hpp:52-63 | exactly which formats and words are accepted, kind by kind |
| NumericFormats.OneInteger | include/vita/codec/numeric_samples.hpp:72 | in a non-normalized format the word 1 << fractionalBits stands for one |
| NumericFormats.TopOfFixed | include/vita/codec/numeric_samples.hpp:73-74 | the largest word of a fixed format is one step short of one |
| NumericFormats.TopOfVrt | include/vita/codec/numeric_samples.hpp:73-74 | so is that of a VRT format at its top exponent field, and each field below halves it |
| NumericConversion.PromiseInReals | include/vita/codec/numeric_samples.hpp:133-172 | correct rounding on the integer scale is correct rounding of real numbers over all words of the format |
| NumericConversion.EncodeNumeric | include/vita/codec/numeric_samples.hpp:133-172 | for every specification, value and policy: rounding always succeeds in the domain and is correct over all words as real numbers; out of the domain it is refused or saturates at the end of the domain; an exact result decodes to the canonical input |
| NumericEncoder.OwnFormatKeeps | include/vita/codec/numeric_samples.hpp:120-172 | a pattern re-encoded in its own format keeps its value, unrounded, under every policy |
| NumericConversion.ConvertNumeric | include/vita/codec/numeric_samples.hpp:173-178 | conversion is correct rounding of the real value of the source word, and the identity on values within one format |
| Rounding.SignedLevelIsBest | include/vita/codec/numeric_samples.hpp:152-163 | rounding at the finest level that fits is best over all levels |
| IeeeEncoder.DecodeMeaning | include/vita/codec/ieee_samples.hpp:80-101 | every finite pattern decodes to its value on the common scale in canonical form, zeros to zero with their sign (its real value is `IeeeFormats.DecodeIsStandard`) |
| IeeeEncoder.TinyMeaning | include/vita/codec/ieee_samples.hpp:123-128 | the carry test decides tininess after rounding with unbounded exponent |
| IeeeEncoder.OverflowBranches | include/vita/codec/ieee_samples.hpp:118-135 | the two range tests together decide whether the value rounded with unbounded exponent exceeds the largest finite number |
| IeeeEncoder.OverflowMeaning | include/vita/codec/ieee_samples.hpp:68-78 | overflow yields infinity where mode and policy ask for it, else the largest finite value of the sign, with its flags (section 7.4 of IEEE 754-2019) |
| IeeeEncoder.EncodeFiniteCorrect | include/vita/codec/ieee_samples.hpp:113-142 | every non-zero value is rounded correctly over all finite patterns in all modes, subnormals and carries included; inexact exactly when the value changed; exact_only succeeds exactly for representable values; underflow flag exact (sections 4.3 and 7.5 of IEEE 754-2019); over the reals `IeeeFormats.EncodesReal` |
| IeeeFormats.DecodeIsStandard | include/vita/codec/ieee_samples.hpp:33-101 | every word decodes to what table 3.5 and section 3.4 of IEEE 754-2019 say it is: sign, category, value as a real number, payload; no other word decodes |
| IeeeFormats.HeldExactly | include/vita/codec/ieee_samples.hpp:33-101 | a non-zero number is a finite number of a format if and only if its odd part is below 2^11, 2^24 or 2^53, its exponent at least -24, -149 or -1074 and its size within the largest finite number |
| IeeeFormats.OneAndNext | include/vita/codec/ieee_samples.hpp:33-40 | 0x3C00, 0x3F800000 and 0x3FF0000000000000 are one, and the next word is one plus one unit of the precision |
| IeeeFormats.EncodesReal | include/vita/codec/ieee_samples.hpp:113-142 | encoding any non-zero value rounds its real value among the numbers of the standard, with overflow, inexact and underflow flags decided over the reals |
| IeeeFormats.ConvertsReal | include/vita/codec/ieee_samples.hpp:143-168 | so does converting a finite word of any other format; zero keeps its sign |
| IeeeFormats.TinyIsReal | include/vita/codec/ieee_samples.hpp:121-128 | tininess is decided by the real value rounded with unbounded exponent |
| IeeeConvert.FiniteInjective | include/vita/codec/ieee_samples.hpp:80-101 | different finite patterns differ in value or sign |
| IeeeConvert.RoundTrip | include/vita/codec/ieee_samples.hpp:80-142 | every finite pattern survives decode and encode unchanged and without flags, under every policy |
| IeeeConvert.WideningKeeps | include/vita/codec/ieee_samples.hpp:143-148 | converting to a format at least as wide keeps the value exactly |
| IeeeConvert.WidenNarrow | include/vita/codec/ieee_samples.hpp:143-148 | widening and narrowing gives back the very bits |
| IeeeConvert.NonFiniteConverts | include/vita/codec/ieee_samples.hpp:149-168 | every non-finite pattern under every policy: refused exactly under rejection or when the exact policy would have to cut a payload; infinities stay; NaNs become quiet with sign and aligned payload, or the canonical NaN; the flags report signalling input and lost sign or payload exactly |
| IeeeConvert.PayloadLoss | include/vita/codec/ieee_samples.hpp:159-165 | moving a payload and back restores it exactly when no dropped bit was set |
| IeeeConvert.QuietNaNWidenNarrow | include/vita/codec/ieee_samples.hpp:159-168 | a quiet NaN with its payload survives widening and narrowing |
| Time.AddMeaning | include/vita/runtime/timing/time.hpp:15-21 | adds total picoseconds, failing exactly past the end of time |
| Time.SubtractMeaning | include/vita/runtime/timing/time.hpp:22-27 | subtracts total picoseconds, failing exactly before zero |
| Time.DifferenceMeaning | include/vita/runtime/timing/time.hpp:28-31 | exact distance, failing exactly when the order is wrong |
| Time.AddThenSubtract | include/vita/runtime/timing/time.hpp:15-27 | subtracting undoes adding |
| SampleTimelines.AdvanceIsExact | include/vita/runtime/timing/sample_timeline.hpp:37-53 | advancing moves the exact instant by n sample periods and keeps a reduced proper fraction |
| SampleTimelines.AdvanceFailure | include/vita/runtime/timing/sample_timeline.hpp:37-53 | a reachable timeline refuses to advance exactly at the end of ordinals or of time |
| SampleTimelines.AdvanceAdds | include/vita/runtime/timing/sample_timeline.hpp:37-53 | advancing by m and then n equals advancing by m + n, failures included |
| SampleTimelines.CommonDenominatorFits | include/vita/runtime/timing/sample_timeline.hpp:9-13 | the division test decides whether the least common multiple fits 64 bits |
| SampleTimelines.StepIsExact | include/vita/runtime/timing/sample_timeline.hpp:19-53 | every successful call keeps the invariant and shifts the instant exactly |
| SampleTimelines.RunIsExact | include/vita/runtime/timing/sample_timeline.hpp:15-53 | after any run the instant is the origin plus the sum of all shifts |
| SampleTimelines.NeverResourceLimited | include/vita/runtime/timing/sample_timeline.hpp:30-53 | from creation on, over any run, advance never fails with resource_limit |
| SampleTimelines.CreateOutcome | include/vita/runtime/timing/sample_timeline.hpp:15-18 | created exactly for one to a hundred million samples a second and a valid time, at ordinal 0 and revision 0 |
| SampleTimelines.OneSecond | include/vita/runtime/timing/sample_timeline.hpp:39-41 | as many samples as the rate says make 10^12 picoseconds |
| SampleTimelines.ChangeRateOutcome | include/vita/runtime/timing/sample_timeline.hpp:30-36 | when a rate is taken, what it changes, and which error it is otherwise |
| SampleTimelines.ReanchorOutcome | include/vita/runtime/timing/sample_timeline.hpp:19-24 | moves by exactly the difference of the two clocks, and fails exactly for invalid clocks or out of the range of time |
| SampleTimelines.SampleTimeline.Advance | include/vita/runtime/timing/sample_timeline.hpp:37-53 | the 64-bit computation never overflows and equals the simple form over unbounded integers; failure changes nothing |
| SampleTimelines.SampleTimeline.ChangeRate | include/vita/runtime/timing/sample_timeline.hpp:30-36 | new rate and revision, or nothing changed |
| SampleTimelines.SampleTimeline.ReanchorMapping | include/vita/runtime/timing/sample_timeline.hpp:19-24 | shifts whole time only, or nothing changed |
| IntervalSearch.ReachesMonotone | include/vita/runtime/public/runtime.hpp:793-799 | if a longer advance ends by the target so does a shorter one |
| IntervalSearch.ReachesMeaning | include/vita/runtime/public/runtime.hpp:793-799 | an advance ends by the target if and only if its exact end lies less than a picosecond past it and ordinals suffice |
| IntervalSearch.IntervalsOn | include/vita/runtime/public/runtime.hpp:786-802 | within 64 steps finds the largest number of whole intervals that end at or before the target, zero when the target is past |
| ReplayWire.SampleTimeIsTimeline | bench/replay_wire.hpp:15-17 | the closed form is what a timeline at one rate reports |
| ReplayWire.OrdinalInvertsTime | bench/replay_wire.hpp:15-22 | at every rate the ordinal comes back exactly if and only if neither field overflows and rounding to whole picoseconds lost less than one sample period |
| ReplayWire.SlowRatesInvert | bench/replay_wire.hpp:15-22 | up to one sample per picosecond the ordinal comes back if and only if neither field overflows |
| ReplayWire.FasterRatesCollide | bench/replay_wire.hpp:18-22 | above one sample per picosecond the first two ordinals share a time |
| Revisions.ReserveKeeps | include/vita/runtime/context/revisions.hpp:51-58 | a reservation holds exactly what it asked for and takes nothing from another |
| Revisions.RecordKeeps | include/vita/runtime/context/revisions.hpp:62-71 | a recorded event takes exactly one slot of its own reservation |
| Revisions.GiveBackKeeps | include/vita/runtime/context/revisions.hpp:50 | giving back frees exactly the unused slots of the token and keeps every other reservation |
| Revisions.DetachKeeps | include/vita/runtime/context/revisions.hpp:124-128 | after detaching no slot is reserved and none awaits publication |
| Revisions.LeaderUnique | include/vita/runtime/context/revisions.hpp:95-107 | the revision that stands for the next group is unique |
| Revisions.AcceptTakesGroup | include/vita/runtime/context/revisions.hpp:108-115 | accepting takes exactly the members of a consistent group out of waiting, and at least one |
| Revisions.ConsistentMeaning | include/vita/runtime/context/revisions.hpp:95-107 | when one Context can stand for a group: shared ordinal, and equal state where Data or loss relies on it; without a time nothing may rely on it |
| Revisions.LeaderMeaning | include/vita/runtime/context/revisions.hpp:83-107 | the leader of the next group: no awaiting revision with an earlier time, or a later id of its time |
| Revisions.CollectFreesUnused | include/vita/runtime/context/revisions.hpp:47 | collection frees exactly the slots that are neither reserved nor current nor awaiting nor under a handle, and changes no other |
| Revisions.ReserveOutcome | include/vita/runtime/context/revisions.hpp:51-58 | a reservation succeeds if and only if its count is positive and fits the slots not in use, and ids and tokens are left; which error it is otherwise |
| Revisions.RecordOutcome | include/vita/runtime/context/revisions.hpp:62-71 | what recording does to every slot, the current revision, the ids and the fault |
| Revisions.DetachOutcome | include/vita/runtime/context/revisions.hpp:124-128 | detaching leaves only revisions under handles, for a later generation |
| RevisionStores.RevisionStore.Collect | include/vita/runtime/context/revisions.hpp:47 | frees exactly the slots not in use; live handles keep their event and id |
| RevisionStores.RevisionStore.Reserve | include/vita/runtime/context/revisions.hpp:51-58 | succeeds if and only if the count fits the slots not in use and ids and tokens are left; then the first free slots are held under a new token |
| RevisionStores.RevisionStore.Record | include/vita/runtime/context/revisions.hpp:62-71 | commits to the first slot of the reservation with the next id and makes it current |
| RevisionStores.RevisionStore.GiveBack | include/vita/runtime/context/revisions.hpp:50 | frees the unused slots of a token |
| RevisionStores.RevisionStore.Initial | include/vita/runtime/context/revisions.hpp:76-81 | installs the first revision under a fresh id with a handle on it, or changes neither current, id nor handles |
| RevisionStores.RevisionStore.Current | include/vita/runtime/context/revisions.hpp:82 | one more counted handle on the current revision |
| RevisionStores.RevisionStore.Release | include/vita/runtime/context/revisions.hpp:23-39 | one handle fewer, everything else as it was |
| RevisionStores.RevisionStore.NoteDataDependency | include/vita/runtime/context/revisions.hpp:90-94 | marks the dependency unless the revision is detached or foreign |
| RevisionStores.RevisionStore.NextPublication | include/vita/runtime/context/revisions.hpp:83-88 | earliest known time, or latest id when no time is known |
| RevisionStores.RevisionStore.PublicationGroup | include/vita/runtime/context/revisions.hpp:95-107 | the latest revision of the earliest group if its members agree; a conflict exactly if they do not; none exactly if nothing awaits |
| RevisionStores.RevisionStore.AcceptGroup | include/vita/runtime/context/revisions.hpp:108-115 | succeeds exactly for the leader of a consistent group of this association, and then marks the group |
| RevisionStores.RevisionStore.Detach | include/vita/runtime/context/revisions.hpp:124-128 | new association; revisions survive only under handles |
| RevisionRuns.RunKeeps | include/vita/runtime/context/revisions.hpp:44-129 | the store's invariant, and with it room for every reserved id, after every run |
| RevisionRuns.QuietStoreAdmits | include/vita/runtime/context/revisions.hpp:44-129 | after any run, once everything is published and no handle is left, every slot but the current revision's can be reserved |
| RevisionRuns.ReservationHonoured | include/vita/runtime/context/revisions.hpp:51-71 | a reservation of n slots takes n events of its association whatever happens in between, unless given back or detached |
| RevisionRuns.IdentifiersIncrease | include/vita/runtime/context/revisions.hpp:53-67 | ids issued along any run increase strictly and stay in 64 bits |
| RevisionRuns.HandleIsStable | include/vita/runtime/context/revisions.hpp:23-47 | a handle held through a run shows the same event and id all along |
| RevisionRuns.AwaitingUntilAccepted | include/vita/runtime/context/revisions.hpp:47 | over any run within an association an awaiting revision stays unchanged up to the step that accepts it, or to the end |
| RevisionRuns.CurrentIsStable | include/vita/runtime/context/revisions.hpp:47 | a revision that stays current through a run is never collected or changed |
| ContextState.RequiredMeaning | include/vita/runtime/context/revisions.hpp:10-15 | which fields each profile must know, by name |
| ContextState.SameStateMeaning | include/vita/runtime/context/revisions.hpp:6-9 | two states are the same exactly when they agree in every active field and in the indicators while known |
| ContextTraces.AppendContext | include/vita/runtime/context/publisher.hpp:99-101 | a Context past the high-water mark, or at it with the same state, keeps the record in order and the mark at its top |
| ContextTraces.SettledByAccept | include/vita/runtime/context/publisher.hpp:100-102 | after accepting a group each accepted revision has the Context of its own group, time and ordinal on record: for a timed group it shows the leader, and with it the revision's own state if Data or loss was already tied to it; for an untimed group it shows the revision then current |
| LateData.DataState | include/vita/runtime/context/publisher.hpp:71-74 | in every safe record the Context of timed Data shows the Data's own revision if and only if the dependency was noted before acceptance or the leader's state is the same |
| LateData.LateDataTravelsUnderTheLeader | include/vita/runtime/context/publisher.hpp:73-74 | a run of the store and a safe record in which late Data goes out under another revision's state |
| ContextPublishers.ContextPublisher.Start | include/vita/runtime/context/publisher.hpp:63-67 | starts exactly when idle with a complete current revision and no fault; the gate is closed |
| ContextPublishers.ContextPublisher.Submit | include/vita/runtime/context/publisher.hpp:71-79 | refused unless the stream admits the revision; handed over at once exactly when the gate is open and the Context is out; else held exactly when the queue is not full; the caller's handle is given up in every case |
| ContextPublishers.ContextPublisher.PublishNext | include/vita/runtime/context/publisher.hpp:95-105 | finds none exactly if nothing awaits; otherwise offers the leader's group under a Context that shows the leader, or for an untimed group the current revision, exactly unless the members conflict or the mark forbids it; success takes the group out of waiting |
| ContextPublishers.ContextPublisher.OpenGate | include/vita/runtime/context/publisher.hpp:106-112 | offers an observation at the present time that shows the current revision: its state, id and association, complete, with the publisher's calibrated bit; the gate opens exactly when that is accepted, and a present time not past the mark stops the stream |
| ContextPublishers.ContextPublisher.SendHeld | include/vita/runtime/context/publisher.hpp:113 | hands over every held packet whose revision is published |
| ContextPublishers.ContextPublisher.Refresh | include/vita/runtime/context/publisher.hpp:114 | exactly when a second has gone by, offers a refresh at the present time that shows the current revision without its loss bits; otherwise nothing happens |
| ContextPublishers.ContextPublisher.Withdraw | include/vita/runtime/context/publisher.hpp:85-91 | after a fault one Context marked invalid is offered, showing the state observed with the fault or else the current revision, at most once and only past the mark; which error it is otherwise |
| ContextPublishers.ContextPublisher.Progress | include/vita/runtime/context/publisher.hpp:80-117 | success leaves no awaiting revision and no held packet, and a turn in order fails only if the transport refused something, the stream had to stop, or nothing is current; a stream blocked for ten milliseconds stops; the record stays safe |
| ContextPublishers.ContextPublisher.Pause | include/vita/runtime/context/publisher.hpp:122 | returns to idle exactly from an active or blocked stream whose store has a complete current revision and no fault |
| ContextPublishers.ContextPublisher.Detach | include/vita/runtime/context/publisher.hpp:123 | a new association with no mark, nothing held and the record kept |
| PublisherLedgers.FrameFacts | include/vita/runtime/context/publisher.hpp:53-60 | a frame shows its revision: state, id, association and indicators, with the loss bits only where they are news |
| PublisherLedgers.InvalidFrameFacts | include/vita/runtime/context/publisher.hpp:86-89 | a withdrawing frame shows the fault's state or else the revision's, marked invalid |
| PublisherLedgers.MarkAllows | include/vita/runtime/context/publisher.hpp:99 | the mark refuses exactly what would go back in time or change the state of a time |
| PublisherRuns.Run | include/vita/runtime/context/publisher.hpp:44-123 | from construction on, for all calls and all answers of the transport: within an association accepted Context never goes back in time and one time has one state; Data is handed over only after the gate of its run, opened with the then current state, and after a Context of its group, which shows the leader or for untimed Data the revision then current; every accepted packet was handed over once, is held, or was discarded, and only an active stream holds any |
| ReceiverHistories.InsertKeepsSorted | include/vita/runtime/context/receiver.hpp:26-29 | insertion keeps the history strictly sorted and within capacity |
| ReceiverHistories.InsertedAgain | include/vita/runtime/context/receiver.hpp:27 | a time already there keeps its entry, in conflict from then on exactly if the two disagree |
| ReceiverHistories.InsertedNew | include/vita/runtime/context/receiver.hpp:25-29 | a new time is taken unless the history is full of later ones; a full history gives up its oldest entry and nothing else |
| ReceiverHistories.DisagreementIsAmbiguous | include/vita/runtime/context/receiver.hpp:27-58 | after two entries of one time that disagree the answer at that time is ambiguous |
| ReceiverHistories.ReceiverHistory.Insert | include/vita/runtime/context/receiver.hpp:20-30 | the sorted insertion with eviction of the oldest, conflict on disagreement, or the error with nothing changed |
| ReceiverHistories.ReceiverHistory.Resolve | include/vita/runtime/context/receiver.hpp:49-64 | one pass gives the overlay of the deltas since the last full entry at or before the sample, with its confidence |
| ReceiverHistories.OverlayMeaning | include/vita/runtime/context/receiver.hpp:51-55 | a resolved field is what the last entry that carries it says |
| ReceiverHistories.OverlayEvents | include/vita/runtime/context/receiver.hpp:51-55 | so are the indicators, which keep their word while not known |
| ReceiverHistories.AnswerMeaning | include/vita/runtime/context/receiver.hpp:49-64 | when an answer is ambiguous, stale, missing or certain, and when its data is valid, in terms of the entries at or before the sample |
| ReceiverHistories.ReceiverHistory.Expire | include/vita/runtime/context/receiver.hpp:65 | keeps exactly the living entries, in order, in place |
| ReceiverHistories.ReceiverHistory.Detach | include/vita/runtime/context/receiver.hpp:66 | empties the history for a later generation only |
| HistoryExpiry.EndsBeforeMeaning | include/vita/runtime/context/receiver.hpp:60 | state holds for less than two seconds of protocol time |
| HistoryExpiry.CertainMeaning | include/vita/runtime/context/receiver.hpp:49-64 | an answer is certain exactly when the last relevant entry is full, unconflicted, complete, recent and near |
| HistoryExpiry.ExpiryKeepsCertain | include/vita/runtime/context/receiver.hpp:65 | expiry never alters a certain answer, then or later |
| HistoryExpiry.ExpiryRevives | include/vita/runtime/context/receiver.hpp:65 | no answer becomes certain by expiry if and only if no entry about to expire directly follows a usable one that stays, within two seconds |
| HistoryExpiry.InOrderExpiryIsInvisible | include/vita/runtime/context/receiver.hpp:65 | when entries arrived in time order expiry creates and changes no certain answer |
| HistoryExpiry.OutOfOrderExpiryRevives | include/vita/runtime/context/receiver.hpp:65 | a concrete history where expiry makes a stale answer certain |
| ContextDelivery.SameImage | include/vita/runtime/context/publisher.hpp:13-35 | frames of one time and state are the same to every receiver that can read them |
| ContextDelivery.ImageIsState | include/vita/runtime/context/publisher.hpp:13-35 | outside the radio profile a receiver sees exactly the known fields and the indicators of the frame; which receivers read it |
| ContextDelivery.ImageIsRadioState | include/vita/runtime/context/receiver.hpp:35-46 | a radio's Context carries four values and means that they are valid; the receiver fills in reference, format and indicators |
| ContextDelivery.NeverAmbiguous | include/vita/runtime/context/receiver.hpp:20-64 | any lost, repeated or reordered selection of a safe record's Context gives a history without conflict and no ambiguous answer, and a certain answer shows a published frame |
| ContextReceivers.ContextReceiver.ReceiveData | include/vita/runtime/context/receiver.hpp:98-107 | delivered, kept or refused, exactly as metadata and quotas say; having a quota there is always a free place |
| ContextReceivers.ContextReceiver.Progress | include/vita/runtime/context/receiver.hpp:109-115 | every waiting packet is dropped, delivered or stays as its age and metadata say, and what was accepted stays the sum of delivered, dropped, discarded and waiting; nothing ten milliseconds old still waits |
| ContextReceivers.ContextReceiver.ReceiveContext | include/vita/runtime/context/receiver.hpp:108 | Ok if and only if the generation matches, the packet reads and checks, its time is valid and the history has room; then the history is the living part of the old one with the entry inserted, and every waiting packet meets its fate against it; otherwise nothing changes |
| ContextReceivers.FreshContextAnswers | include/vita/runtime/context/receiver.hpp:20-64 | a complete Context of a new time answers for that time until two seconds later, whatever the history held |
| ContextReceivers.ContextThenData | include/vita/runtime/context/receiver.hpp:98-108 | over two calls: after an accepted complete Context, Data of its time is delivered with its state |
| ContextReceivers.MaskedMeaning | include/vita/runtime/context/receiver.hpp:103 | metadata shown without certainty claims nothing but the fixed format |
| ContextReceivers.ContextReceiver.Detach | include/vita/runtime/context/receiver.hpp:116 | discards exactly what waits and returns its quota |
| ContextReceivers.RetentionQuota.Take | include/vita/memory/envelope.hpp:10-15 | takes one while enabled and below the limit |
| CompletionArenas.AnyStepKeeps | include/vita/runtime/completion/ticket.hpp:49-128 | every atomic step of every thread keeps exclusive writers and readers and the pairing of operation and payload |
| CompletionArenas.EveryRunIsSafe | include/vita/runtime/completion/ticket.hpp:49-128 | in any interleaving each generation of a slot is reserved, claimed, finished and consumed at most once, in this order, before the next; each record pairs its operation with its claimant's result |
| CompletionArenas.AtMostOnce | include/vita/runtime/completion/ticket.hpp:70-128 | two claims, or two consumptions, of one generation are the same one |
| CompletionArenas.ConsumedAfterItsPair | include/vita/runtime/completion/ticket.hpp:119-128 | a consumed record follows its reservation, its claim and its completion, in that order |
| CompletionArenas.SlotsNeverGoBack | include/vita/runtime/completion/ticket.hpp:108-128 | no step takes a slot back in its life, and a retired slot never changes |
| CompletionArenas.StalePublisherIsPowerless | include/vita/runtime/completion/ticket.hpp:70-77 | from any reachable state on, nothing more happens in a slot for a generation that is over |
| CompletionProgress.ReserveGrants | include/vita/runtime/completion/ticket.hpp:108-118 | alone, a reservation takes the first free slot in its generation, with its operation, and changes nothing else |
| CompletionProgress.ReserveFindsNone | include/vita/runtime/completion/ticket.hpp:108-118 | with every slot in use it ends without effect |
| CompletionProgress.PublishDecides | include/vita/runtime/completion/ticket.hpp:49-78 | a publication finishes the slot with its result if and only if the slot is still reserved in its generation; otherwise it is only counted |
| CompletionProgress.ConsumeDecides | include/vita/runtime/completion/ticket.hpp:119-128 | a ready slot gives its operation and result once and is free in the next generation, or retired after generation 2^56 - 1; any other slot gives nothing |
| CompletionProgress.ReservedPublishedConsumed | include/vita/runtime/completion/ticket.hpp:108-128 | from reservation to consumption by three threads: the record is the operation reserved and the result published |
| CompletionProgress.ReservationIsGranted | include/vita/runtime/completion/ticket.hpp:108-118 | in any interleaving, a reservation that scans while slot k is free reserves slot k or an earlier one within a bounded number of its own steps |
| CompletionProgress.FreshArena | include/vita/runtime/completion/ticket.hpp:30-32 | a fresh arena has all slots free in the given generation, or in the last one |
| Counters.CounterRegistry.Next | include/vita/runtime/stream/counters.hpp:78-86 | the number of accepted packets of the key modulo 16 |
| Counters.CounterRegistry.Accept | include/vita/runtime/stream/counters.hpp:89-101 | commits exactly the expected count |
| Counters.CounterRegistry.Add | include/vita/runtime/stream/counters.hpp:23-41 | registers exactly a new valid key before freezing while there is room, and says which of these failed otherwise |
| Counters.InSequenceAppend | include/vita/runtime/stream/counters.hpp:89-101 | accepting the expected count keeps the k-th packet of each key at k modulo 16 |
| Loopbacks.Loopback.TrySend | include/vita/adapters/loopback/loopback.hpp:59-110 | accepted if and only if the submission is in order, its lane has a slot and a credit, its count is the expected one and the pool, the parser and the completion credits agree; then it goes into the first free slot of its lane and the whole new state follows; a rejection leaves slots, counters and credits as they were |
| Loopbacks.Loopback.BeginNext | include/vita/adapters/loopback/loopback.hpp:148-153 | picks the earliest accepted packet not yet completed |
| Loopbacks.Loopback.Finish | include/vita/adapters/loopback/loopback.hpp:111-147 | completes the current packet once exactly when delivery and arming succeed where they are asked for, else leaves it first in line |
| Loopbacks.Loopback.ProveQuiescent | include/vita/adapters/loopback/loopback.hpp:154-158 | frees a held slot of the right generation into a new one |
| Loopbacks.LanesPartition | include/vita/adapters/loopback/loopback.hpp:83-91 | the lanes divide the slots: data first, then control, then as many cancellation slots as configured |
| Loopbacks.ReleasedMeaning | include/vita/adapters/loopback/loopback.hpp:154-158 | a freed slot is free under the next generation, or never again |
| Loopbacks.CountsInSequence | include/vita/adapters/loopback/loopback.hpp:98-107 | the k-th accepted packet of a key carries k modulo 16 |
| Loopbacks.Run | include/vita/adapters/loopback/loopback.hpp:59-158 | over every run packets complete once each in acceptance order, stay in their lanes, count in sequence, and each lane's credits equal its occupied slots |
| Envelopes.SplitJoin | include/vita/codec/wire.hpp:91-94 | the header word gives back its fields |
| Envelopes.JoinSplit | include/vita/codec/wire.hpp:110-117 | the fields give back the header word |
| EnvelopeRoundTrip.EncodeThenDecode | include/vita/codec/wire.hpp:45-136 | decoding an encoded packet gives it back but for what its header marks absent, with payload and trailer |
| EnvelopeRoundTrip.DecodeThenEncode | include/vita/codec/wire.hpp:45-136 | every accepted wire is reproduced byte for byte |
| EnvelopeRoundTrip.DecodesExactly | include/vita/codec/wire.hpp:45-136 | exactly the wires of encodable packets are accepted |
| WireLayout.WireIs | include/vita/codec/wire.hpp:87-106 | every part of a packet stands in its place: header bits, stream and class identifiers, timestamps, command words, payload and trailer, each word with its most significant byte first |
| WireLayout.PartsByType | include/vita/codec/wire.hpp:59-86 | which packet types carry a stream identifier, a command or a trailer |
| WireLayout.CamMeaning | include/vita/codec/wire.hpp:45-58 | the command control words allowed, bit by bit (section 8.2 of ANSI/VITA 49.2) |
| EnvelopeRoundTrip.WireIsInjective | include/vita/codec/wire.hpp:87-106 | packets that differ in canonical form differ on the wire |
| EnvelopeCodec.EncodeEnvelope | include/vita/codec/wire.hpp:87-106 | writes exactly the packet at the front of the buffer, or an error and nothing |
| EnvelopeCodec.EncodePrologue | include/vita/codec/prologue.hpp:29-33 | writes exactly the bytes before the payload |
| EnvelopeCodec.EncodeTrailer | include/vita/codec/prologue.hpp:34-37 | writes exactly the trailer word |
| EnvelopeCodec.PiecesMakeWire | include/vita/codec/prologue.hpp:8-37 | prologue, payload and trailer put together are the output of encode_envelope |
| SampleBits.Read | include/vita/codec/general_samples.hpp:56-63 | the bits of the field as a number that fits 64 bits |
| SampleBits.ReadShows | include/vita/codec/general_samples.hpp:56-63 | a field reads as a value exactly when it shows the value's bits |
| SampleBits.BitOrder | include/vita/codec/general_samples.hpp:56-63 | bits of a byte count from the most significant |
| SampleBits.WriteBits | include/vita/codec/general_samples.hpp:64-69 | sets exactly the bits of the value in the field |
| SamplePacking.PlaceInside | include/vita/codec/general_samples.hpp:77-97 | every item lies in the measured bytes and its bit positions fit 64 bits |
| SamplePacking.PlacesApart | include/vita/codec/general_samples.hpp:51-55 | places of different items do not overlap, in both packings |
| SampleLayout.PlacesFollow | include/vita/codec/general_samples.hpp:51-55 | link-efficient places follow each other directly; processing-efficient ones begin the next word when they would straddle it |
| SampleLayout.ItemFields | include/vita/codec/general_samples.hpp:114-120 | within a place: data first, padding, event tag, channel tag last |
| SampleLayout.MeasureMeaning | include/vita/codec/general_samples.hpp:77-97 | a shape is accepted exactly within the format's ranges, the limits and 64 bits; it has whole structures in the fewest words |
| SampleLayout.AllowedIsValid | include/vita/codec/general_samples.hpp:38-50 | which packings are allowed |
| SamplePacking.Pack | include/vita/codec/general_samples.hpp:149-168 | every item with both tags reads back, padding is zero, bytes behind the measured ones and all bytes on failure are untouched |
| SamplePacking.PackedIsUnique | include/vita/codec/general_samples.hpp:114-168 | a buffer with zero padding is the packing of the items read from it |
| SampleCoordinates.MeasuredGroup | include/vita/codec/general_samples.hpp:77-97 | a measured shape consists of whole structures and its item count fits 64 bits |
| SampleCoordinates.IndexThenCoordinates | include/vita/codec/general_samples.hpp:121-146 | every coordinate in the shape has an index that leads back to it, in all repeat modes |
| SampleCoordinates.CoordinatesThenIndex | include/vita/codec/general_samples.hpp:121-146 | every index has coordinates that lead back to it |
| SampleLayout.IndexOrder | include/vita/codec/general_samples.hpp:121-146 | indices follow the order of coordinates that each repeat mode prescribes |
| SegmentedSamples.Create | include/vita/codec/segmented_samples.hpp:32-47 | gathers the pieces, accepting exactly those whose total extent is the shape's |
| SegmentedSamples.ByteAt | include/vita/codec/segmented_samples.hpp:14-21 | the byte of the joined pieces |
| SegmentedSamples.At | include/vita/codec/segmented_samples.hpp:50-56 | any split reads the same item as the contiguous payload |
| ArrayCifLayout.HeaderMeaning | include/vita/codec/array_cif.hpp:38-72 | a header is accepted if and only if its words say its size, select known fields and leave what is reserved clear; it shows the selected fields in order and their attributes |
| ArrayCifLayout.RecordsFollow | include/vita/codec/array_cif.hpp:82 | the records follow the header and one another to the end of the array |
| ArrayCifLayout.PairsAre | include/vita/codec/array_cif.hpp:114-119 | each field with all its attributes, in order, before the next field |
| ArrayCifLayout.FieldRules | include/vita/codec/array_cif.hpp:86-110 | extent, units and limits of a field by attribute and kind |
| ArrayCifLayout.FlatCost | include/vita/codec/array_cif.hpp:80-119 | what an array without nesting costs, counter by counter |
| ArrayCifLaws.WalkArrayTiles | include/vita/codec/array_cif.hpp:73-124 | a successful walk has found an exact tiling of every record, nested ones included, charged exactly its cost, and kept every counter within its limit |
| ArrayCifLaws.WalkArrayFinds | include/vita/codec/array_cif.hpp:73-124 | every exact tiling whose cost the budget bears is found |
| ArrayCifLaws.WalkArrayAccepts | include/vita/codec/array_cif.hpp:73-124 | a walk succeeds if and only if there is an exact tiling that the budget affords |
| ArrayCifLaws.TilesHeight | include/vita/codec/array_cif.hpp:77-78 | nesting never exceeds four or the configured depth |
| ArrayCifWalkers.Walker.Walk | include/vita/codec/array_cif.hpp:73-124 | the walk over the shared budget charges and reports exactly what the tiling says |
| ArrayCifWalkers.Walker.WalkItem | include/vita/codec/array_cif.hpp:86-119 | one field is measured, checked, paid for and reported, nested arrays first |
| ArrayCifWalkers.ReportCount | include/vita/codec/array_cif.hpp:115-119 | one element is reported per item of the tiling |
| ArrayCifWalkers.Validate | include/vita/codec/array_cif.hpp:148-158 | accepts exactly the exact tilings whose cost the budget bears and charges that cost; rejection leaves the shared budget unchanged |
| ArrayCifWalkers.Visit | include/vita/codec/array_cif.hpp:142-146 | after acceptance a visit succeeds and reports as many elements as views were charged |

## Left out

- POSIX sockets, the UDP adapter, factories, benchmarks other than the two time functions, analyzers, examples and fuzz drivers: input and output.
- The transaction engine, manager, controller registry, scheduling and routing: not part of this model.
- The radio's per-burst Context that bypasses the publisher (include/vita/runtime/public/runtime.hpp:927-931).
- `mark_publication`: the publisher does not use it; with it a publication could fail and the publisher's success would promise less.
- Values of fields: `validate_snapshot`, `validate_value`, structured field layouts and attribute checks are taken as given verdicts or a schema parameter; only the profile part of a snapshot is modelled.
- Enumerators outside their range, and the error details beyond the error code.
- `finite_value` (include/vita/codec/ieee_samples.hpp:103-111): a check of one record that would add an easy member.
- Memory orderings below sequential consistency; atomics are atomic steps, and a tag is the pair it encodes.
- Overlapping or aliased buffers: buffers are values or distinct arrays.
- Admission bundles held by revisions, and completion credits of the loopback; only lane credits are counted.
- Handles that live only inside one call of the store or the publisher: they are taken and dropped within the call and leave no trace.
- Store calls that bypass the publisher to detach: detaching goes through the publisher, as the runtime does it.
- Failing visitors of an array traversal; visitors never fail here.
- Envelopes.Decode: the moving cursor is threaded as the remaining bytes rather than as a mutable offset.
- Loopbacks.Loopback.Finish: parsing, routing and delivery are one given outcome, and processing a token out of order is not modelled.
- CounterRegistry.install and the buffer pools of the loopback: simple lookup and counting.
- SegmentedSamples.Create: the payload descriptor is reduced to its packing, and null data pointers are not modelled.
- RetainedRx and RxEnvelope fragments: a retained packet is one value that holds one place in each quota.
