# coincidence-counter core in Dafny

A model of the event-processing core of `hhlib-sys`, the Rust library that drives a
time-correlated single-photon counter in T2 mode and counts singles and sync-relative
coincidences:

- `measurement.dfy` (module `Measurement`): the T2 word decoder `convert_T2_value` on
  32-bit words (`bv32`, the same bit masks as the source) and the `Measurement` class,
  whose `ConvertValuesT2` loop accumulates overflow markers into `timeOverflow` and emits
  global times. It is specified by the functions `TimesOf` and `EpochAfter`. The lemmas
  cover output length and order, the epoch reached, monotonicity and resumption.
- `channel_pairs.dfy` (module `ChannelPairs`): the 28-entry pair-index table and its
  inverse, with symmetry, the triangular closed form, lexicographic order and both round
  trips.
- `coincidence_counting.dfy` (module `CoincidenceCounting`): the counting step of
  `measure_and_get_counts` as the class `CoincidenceCounter`. It holds the two fixed
  8-slot arrays `singles` and `coincidences` and the sync queue (a `seq`). Its methods
  are proved against the state functions `Step` and `Run`. The main theorem
  (`StreamingMatchesReference`) says this: over a time-sorted history, the streaming
  counters equal a reference count taken against every earlier sync event. So the
  eviction is safe, even though `drain(0..i)` keeps the last stale entry.
- `common.dfy` (module `Common`): `u8`, the channel count 8 and `Option`.

The model keeps these behaviours of the code as written:

- The decoder never yields a channel number or a sync event with a time. A word with
  bit 31 clear is `Time` with its low 24 bits. Every special word that is not an overflow
  marker is `InternalSync(0)`. `ExternalSync` is never produced.
- No `+1` channel shift is applied, and `convert_values_T2` returns bare times.
- The counting step receives `(channel, time)` pairs, as its call site at
  `hhlib-sys/src/python_wrapper.rs:388-390` destructures them, although
  `convert_values_T2` returns plain times. The model therefore takes the events as an
  abstract `seq<(u8, nat)>`.
- Sync events also increment `singles`.
- The window test counts `delta <= window`, so only `delta > window` is stale.
- `drain(0..i)` keeps the last stale entry.
- `coincidences` is indexed by channel, not by pair index.
- Only sync-relative counting exists in the hhlib-sys files modelled; there is no all-pairs
  counting mode. `rusty-counter/src/main.rs:25` calls `hhlib_sys::singles_and_two_way_coincidences`,
  which none of those files defines; that function is not part of this model.

## Model

| member | source | states |
|---|---|---|
| `Measurement.ConvertT2Value` | hhlib-sys/src/measurement.rs:19-28 | a word below 2^31 (bit 31 clear) is a `Time` whose payload is the word mod 2^24, so bits 24-30 are dropped; a word of at least 0xFE000000 (bit 31 and bits 25-30 set) is an `Overflow` with the word mod 2^24; every other word is `InternalSync(0)`; `ExternalSync` never occurs |
| `Measurement.Measurement.constructor` | hhlib-sys/src/measurement.rs:38-42 | a new measurement starts with `timeOverflow` equal to the given overflow |
| `Measurement.Measurement.ConvertValuesT2` | hhlib-sys/src/measurement.rs:45-56 | the loop returns `TimesOf(input, old epoch)` and leaves `timeOverflow` at `old + 33554432 * (sum of overflow counts)` |
| `Measurement.EpochAfterStep` | hhlib-sys/src/measurement.rs:50-51 | one more word advances the epoch by its overflow count times 33554432 and appends its time, if any, to the output |
| `Measurement.TimesOfLength` | hhlib-sys/src/measurement.rs:48-53 | exactly one time is emitted per word with bit 31 clear |
| `Measurement.TimesOfPrefix` | hhlib-sys/src/measurement.rs:48-53 | the times of a prefix of the input are a prefix of the times of the whole input |
| `Measurement.TimesOfAt` | hhlib-sys/src/measurement.rs:48-53 | the time word at position j yields the output at index (number of time words before j), equal to its 24-bit payload plus the epoch reached by the words before it: input order is kept |
| `Measurement.EpochMonotone` | hhlib-sys/src/measurement.rs:51 | the epoch never decreases along the input and never drops below the start |
| `Measurement.TimesAtLeastStart` | hhlib-sys/src/measurement.rs:50 | every emitted time is at least the starting `timeOverflow` |
| `Measurement.OnlyOverflows` | hhlib-sys/src/measurement.rs:51-55 | an input made only of overflow markers emits nothing |
| `Measurement.EpochAfterAppend` | hhlib-sys/src/measurement.rs:38-51 | the epoch after two bursts equals the epoch after the second burst started from the first burst's epoch |
| `Measurement.TimesOfAppend` | hhlib-sys/src/measurement.rs:38-56 | a measurement created with a previous run's epoch emits the same times as one run over the concatenated input |
| `Measurement.OverflowThenTime` | hhlib-sys/src/measurement.rs:45-56 | an overflow marker with count 1 followed by the time 10 yields exactly [33554432 + 10] |
| `ChannelPairs.CoincidenceChannelsToIndex` | hhlib-sys/src/python_wrapper.rs:299-331 | the index is at most 28, and it is below 28 exactly when both channels are below 8 and differ |
| `ChannelPairs.IndexToCoincidenceChannels` | hhlib-sys/src/python_wrapper.rs:334-366 | an index below 28 gives a pair (a, b) with a < b < 8; any other index gives (255, 255) |
| `ChannelPairs.Symmetric` | hhlib-sys/src/python_wrapper.rs:300-330 | the index of (a, b) equals that of (b, a) for all u8 a, b |
| `ChannelPairs.ClosedForm` | hhlib-sys/src/python_wrapper.rs:300-328 | for a < b < 8 the index is a*(15-a)/2 + b - a - 1 |
| `ChannelPairs.LexicographicOrder` | hhlib-sys/src/python_wrapper.rs:300-328 | lexicographically smaller pairs get smaller indices, so the numbering is injective |
| `ChannelPairs.IndexRoundTrip` | hhlib-sys/src/python_wrapper.rs:299-366 | encoding the pair of index i gives back i for every i < 28 |
| `ChannelPairs.PairRoundTrip` | hhlib-sys/src/python_wrapper.rs:299-366 | decoding the index of distinct channels below 8 gives the pair back, smaller channel first |
| `CoincidenceCounting.CoincidenceCounter.constructor` | hhlib-sys/src/python_wrapper.rs:380-383 | the counter starts with eight zero singles, eight zero coincidences and an empty sync queue |
| `CoincidenceCounting.CoincidenceCounter.ProcessEvent` | hhlib-sys/src/python_wrapper.rs:391-410 | processing one event (channel < 8, no queued sync time after it) moves the state to `Step` of the old state; the scan loop's invariants tie the running coincidence count and `remove_index` to `InWindowCount` and `LastStale` of the scanned prefix |
| `CoincidenceCounting.CoincidenceCounter.ProcessBurst` | hhlib-sys/src/python_wrapper.rs:389-411 | processing a time-sorted burst, whose first time is no earlier than any queued sync time, moves the state to `Run` of the old state over the burst |
| `CoincidenceCounting.StepSpec` | hhlib-sys/src/python_wrapper.rs:390-411 | one event raises its own singles slot by one and no other; a sync event is appended to the back of the queue and changes no coincidence count; any other event raises only its own coincidence slot, by the number of queued times with delta <= window, and the queue loses exactly the entries before its last stale one (none when nothing is stale) |
| `CoincidenceCounting.LastStaleSpec` | hhlib-sys/src/python_wrapper.rs:395-404 | the remembered index is the last position with delta > window: that entry is stale and every later one is not; no index means no entry is stale |
| `CoincidenceCounting.InWindowCountSpec` | hhlib-sys/src/python_wrapper.rs:396-404 | the coincidence increment equals the number of queue positions whose delta is at most the window |
| `CoincidenceCounting.InWindowCountAll` | hhlib-sys/src/python_wrapper.rs:396-404 | the increment is at most the queue length, and it equals it exactly when no entry is stale |
| `CoincidenceCounting.AllStaleCountZero` | hhlib-sys/src/python_wrapper.rs:396-404 | a queue of stale entries adds no coincidence |
| `CoincidenceCounting.DropStalePrefix` | hhlib-sys/src/python_wrapper.rs:396-410 | removing a stale front of the queue does not change the number of coincidences counted |
| `CoincidenceCounting.EvictIsSuffix` | hhlib-sys/src/python_wrapper.rs:408-410 | eviction removes a front part of the queue and keeps the rest in order |
| `CoincidenceCounting.EvictedStayStale` | hhlib-sys/src/python_wrapper.rs:396-410 | on a sorted queue every removed entry is stale for every later event |
| `CoincidenceCounting.StepKeepsQueueBound` | hhlib-sys/src/python_wrapper.rs:392-410 | after an event no queued sync time lies after it, so the unsigned delta of the next event in a sorted burst cannot underflow |
| `CoincidenceCounting.SyncTimesSorted` | hhlib-sys/src/python_wrapper.rs:389-393 | in a time-sorted history the queued sync times are sorted and none is after the last event |
| `CoincidenceCounting.TracksSyncStep` | hhlib-sys/src/python_wrapper.rs:392-393 | a sync event keeps the streaming invariant: the queue is a suffix of the sync times, the dropped ones are stale and the counters equal the reference counts |
| `CoincidenceCounting.TracksOtherStep` | hhlib-sys/src/python_wrapper.rs:394-410 | a non-sync event keeps the same invariant, with the dropped prefix extended by the evicted entries |
| `CoincidenceCounting.RunTracksHistory` | hhlib-sys/src/python_wrapper.rs:388-411 | processing any time-sorted history from the initial state establishes the streaming invariant |
| `CoincidenceCounting.StreamingMatchesReference` | hhlib-sys/src/python_wrapper.rs:388-411 | over a time-sorted history, singles[c] is the number of events on c and coincidences[c] is the number of (earlier sync event, event on c) pairs with delta <= window, as if nothing had been evicted |
| `CoincidenceCounting.RunAppend` | hhlib-sys/src/python_wrapper.rs:380-411 | with the counters and queue kept across the acquisition loop, processing one burst and then another equals processing their concatenation |
| `CoincidenceCounting.ResumedRunMatchesReference` | hhlib-sys/src/python_wrapper.rs:380-411 | after any earlier bursts, a further burst continuing the time order meets the queue bound of `ProcessBurst` and leaves singles and coincidences equal to the reference counts of all events so far |
| `CoincidenceCounting.SyncSlotStaysZero` | hhlib-sys/src/python_wrapper.rs:392-402 | the coincidence slot of the sync channel itself is never incremented |
| `CoincidenceCounting.SmallBurst` | hhlib-sys/src/python_wrapper.rs:390-411 | sync at 100, channel 1 at 150, channel 2 at 5000, window 100: singles [1,1,1,0,0,0,0,0], coincidences [0,1,0,0,0,0,0,0], and the stale sync time 100 stays queued |

## Left out

- Device control (`hhlib-sys/src/device.rs`): thin calls into the vendor driver, with no logic of its own.
- The Python bindings and module registration in `hhlib-sys/src/python_wrapper.rs`: binding glue only.
- The device side of `measure_and_get_counts`: `start_measurement`, `read_fifo`, the CTC status poll, the 131072-word buffer and loop termination. Each burst is an input sequence instead.
- The `sort_by_key` at `hhlib-sys/src/python_wrapper.rs:389`: sortedness of a burst is a precondition of `ProcessBurst`, not a computed result.
- Integer widths: times, `timeOverflow`, counts and the window are unbounded `nat`. The model does not capture u64 overflow of `timeOverflow` or of `t + timeOverflow`, nor usize overflow of the counters.
- `CoincidenceCounting.CoincidenceCounter.ProcessEvent`: requires channel < 8, because the source panics on an out-of-range array index. It also requires that no queued sync time lies after the event, because the source's u64 subtraction would underflow there.
- Error conversion (`hhlib-sys/src/lib.rs`, `hhlib-sys/src/types.rs`): it depends on generated driver constants that are not part of this model.
- `rusty-counter` and the `coincidence_plotter` Python programs: a hardware test program, the user interface, threads and floating-point numerics.
