/**
 * The sync-relative counting step of `measure_and_get_counts`: every event bumps
 * its channel's singles count; a sync event is queued; any other event counts
 * the queued sync times within the coincidence window and evicts the stale
 * front of the queue.
 */
module CoincidenceCounting {
  import opened Common

  /** A decoded event: (channel, global time). */
  type Event = (u8, nat)

  /**
   * A queued sync time is stale for an event at `time` when it lies more than
   * `window` before it. This is only meaningful when `syncTime <= time`: the
   * source subtracts in u64, which cannot go negative, and every contract that
   * uses `Stale` assumes the sync time is not after the event.
   */
  predicate Stale(syncTime: nat, time: nat, window: nat)
  {
    time - syncTime > window
  }

  /** Number of queued sync times that are not stale for an event at `time`. */
  function InWindowCount(queue: seq<nat>, time: nat, window: nat): nat
  {
    if queue == [] then 0
    else
      InWindowCount(queue[..|queue| - 1], time, window)
        + (if Stale(queue[|queue| - 1], time, window) then 0 else 1)
  }

  /** Position of the last stale entry of the queue, if there is one. */
  function LastStale(queue: seq<nat>, time: nat, window: nat): (r: Option<nat>)
    ensures r.Some? ==> r.value < |queue|
  {
    if queue == [] then None
    else if Stale(queue[|queue| - 1], time, window) then Some(|queue| - 1)
    else LastStale(queue[..|queue| - 1], time, window)
  }

  /** The queue after `drain(0..i)` with `i` the last stale position: the last stale entry itself stays. */
  function Evict(queue: seq<nat>, time: nat, window: nat): seq<nat>
  {
    match LastStale(queue, time, window)
    case Some(i) => queue[i..]
    case None => queue
  }

  /** The counters and the sync queue of one acquisition. */
  datatype CounterState = CounterState(singles: seq<nat>, coincidences: seq<nat>, syncBuffer: seq<nat>)

  predicate WellFormed(s: CounterState)
  {
    |s.singles| == CHANNELS && |s.coincidences| == CHANNELS
  }

  /** All counts zero and no sync time queued. */
  function Initial(): (s: CounterState)
    ensures WellFormed(s)
  {
    CounterState(seq(CHANNELS, _ => 0), seq(CHANNELS, _ => 0), [])
  }

  predicate ValidChannels(events: seq<Event>)
  {
    forall k :: 0 <= k < |events| ==> events[k].0 < 8
  }

  predicate SortedByTime(events: seq<Event>)
  {
    forall i, j :: 0 <= i < j < |events| ==> events[i].1 <= events[j].1
  }

  /** The effect of one event on the counters and the queue. */
  function Step(s: CounterState, sync: u8, window: nat, e: Event): (r: CounterState)
    requires WellFormed(s) && e.0 < 8
    ensures WellFormed(r)
  {
    var c := e.0 as int;
    var singles := s.singles[c := s.singles[c] + 1];
    if e.0 == sync then
      CounterState(singles, s.coincidences, s.syncBuffer + [e.1])
    else
      CounterState(singles,
                   s.coincidences[c := s.coincidences[c] + InWindowCount(s.syncBuffer, e.1, window)],
                   Evict(s.syncBuffer, e.1, window))
  }

  /** The effect of a sequence of events, processed in order. */
  function Run(s: CounterState, sync: u8, window: nat, events: seq<Event>): (r: CounterState)
    requires WellFormed(s) && ValidChannels(events)
    ensures WellFormed(r)
  {
    if events == [] then s
    else Step(Run(s, sync, window, events[..|events| - 1]), sync, window, events[|events| - 1])
  }

  // Reference definitions over the whole history of processed events.

  /** The times of the sync events of a history, in order. */
  function SyncTimes(history: seq<Event>, sync: u8): seq<nat>
  {
    if history == [] then []
    else
      var last := history[|history| - 1];
      SyncTimes(history[..|history| - 1], sync) + (if last.0 == sync then [last.1] else [])
  }

  /** Number of events of a history on channel `c`. */
  function SinglesOf(history: seq<Event>, c: nat): nat
  {
    if history == [] then 0
    else SinglesOf(history[..|history| - 1], c) + (if history[|history| - 1].0 as int == c then 1 else 0)
  }

  /**
   * Number of pairs (sync event, later event on channel `c`) of a history, `c`
   * not the sync channel, whose time difference is at most `window`: counted
   * against every earlier sync event, with nothing ever evicted.
   */
  function ReferenceCoincidences(history: seq<Event>, sync: u8, window: nat, c: nat): nat
  {
    if history == [] then 0
    else
      var init, last := history[..|history| - 1], history[|history| - 1];
      ReferenceCoincidences(init, sync, window, c)
        + (if last.0 as int == c && last.0 != sync then InWindowCount(SyncTimes(init, sync), last.1, window) else 0)
  }

  function LastTime(history: seq<Event>): nat
  {
    if history == [] then 0 else history[|history| - 1].1
  }

  // Properties of the queue operations.

  /**
   * `LastStale` finds the last stale position: the entry there is stale and
   * every later entry is within the window; no position means no stale entry.
   */
  lemma {:induction false} LastStaleSpec(queue: seq<nat>, time: nat, window: nat)
    ensures match LastStale(queue, time, window)
      case Some(i) =>
        i < |queue| && Stale(queue[i], time, window)
        && forall j :: i < j < |queue| ==> !Stale(queue[j], time, window)
      case None =>
        forall j :: 0 <= j < |queue| ==> !Stale(queue[j], time, window)
  {
    if queue != [] && !Stale(queue[|queue| - 1], time, window) {
      LastStaleSpec(queue[..|queue| - 1], time, window);
    }
  }

  /** Every queued time is counted exactly when it is not stale: the count is that of a set of positions. */
  lemma {:induction false} InWindowCountSpec(queue: seq<nat>, time: nat, window: nat)
    ensures InWindowCount(queue, time, window)
            == |set j | 0 <= j < |queue| && !Stale(queue[j], time, window)|
  {
    if queue != [] {
      var n := |queue| - 1;
      var init := queue[..n];
      InWindowCountSpec(init, time, window);
      var before := set j | 0 <= j < |init| && !Stale(init[j], time, window);
      var after := set j | 0 <= j < |queue| && !Stale(queue[j], time, window);
      if Stale(queue[n], time, window) {
        assert after == before;
      } else {
        assert after == before + {n};
      }
    }
  }

  /** Every sync time within the window is counted exactly when the queue holds no stale entry. */
  lemma {:induction false} InWindowCountAll(queue: seq<nat>, time: nat, window: nat)
    ensures InWindowCount(queue, time, window) <= |queue|
    ensures InWindowCount(queue, time, window) == |queue| <==> LastStale(queue, time, window) == None
  {
    if queue != [] {
      InWindowCountAll(queue[..|queue| - 1], time, window);
    }
  }

  /** Sync times that are all stale contribute nothing. */
  lemma {:induction false} AllStaleCountZero(queue: seq<nat>, time: nat, window: nat)
    requires forall j :: 0 <= j < |queue| ==> Stale(queue[j], time, window)
    ensures InWindowCount(queue, time, window) == 0
  {
    if queue != [] {
      AllStaleCountZero(queue[..|queue| - 1], time, window);
    }
  }

  /** Dropping a stale prefix of the queue does not change the count. */
  lemma {:induction false} DropStalePrefix(queue: seq<nat>, d: nat, time: nat, window: nat)
    requires d <= |queue|
    requires forall j :: 0 <= j < d ==> Stale(queue[j], time, window)
    ensures InWindowCount(queue[d..], time, window) == InWindowCount(queue, time, window)
  {
    if d == |queue| {
      AllStaleCountZero(queue, time, window);
    } else {
      var n := |queue| - 1;
      var init := queue[..n];
      DropStalePrefix(init, d, time, window);
      assert queue[d..][..|queue[d..]| - 1] == init[d..];
      assert queue[d..][|queue[d..]| - 1] == queue[n];
    }
  }

  /** Eviction removes a front part of the queue and keeps the rest in order. */
  lemma EvictIsSuffix(queue: seq<nat>, time: nat, window: nat)
    ensures |Evict(queue, time, window)| <= |queue|
    ensures Evict(queue, time, window) == queue[|queue| - |Evict(queue, time, window)|..]
  {
    LastStaleSpec(queue, time, window);
  }

  /** When the queue is sorted, every entry eviction removes stays stale for every later event. */
  lemma EvictedStayStale(queue: seq<nat>, time: nat, later: nat, window: nat)
    requires forall i, j :: 0 <= i < j < |queue| ==> queue[i] <= queue[j]
    requires time <= later
    ensures |Evict(queue, time, window)| <= |queue|
    ensures forall j :: 0 <= j < |queue| - |Evict(queue, time, window)| ==> Stale(queue[j], later, window)
  {
    LastStaleSpec(queue, time, window);
  }

  /**
   * One event in the source's terms: its channel's singles slot goes up by one
   * and no other; a sync event is queued at the back and changes no coincidence
   * count; any other event raises its own channel's coincidence slot by the
   * number of queued sync times within the window, and the queue loses exactly
   * the entries before its last stale one (all of it is kept when none is stale).
   */
  lemma StepSpec(s: CounterState, sync: u8, window: nat, e: Event)
    requires WellFormed(s) && e.0 < 8
    ensures var r := Step(s, sync, window, e);
      forall c :: 0 <= c < CHANNELS ==> r.singles[c] == s.singles[c] + (if c == e.0 as int then 1 else 0)
    ensures var r := Step(s, sync, window, e);
      e.0 == sync ==> r.syncBuffer == s.syncBuffer + [e.1] && r.coincidences == s.coincidences
    ensures var r, q := Step(s, sync, window, e), s.syncBuffer;
      e.0 != sync ==>
        && (forall c :: 0 <= c < CHANNELS && c != e.0 as int ==> r.coincidences[c] == s.coincidences[c])
        && r.coincidences[e.0] == s.coincidences[e.0] + |set j | 0 <= j < |q| && !Stale(q[j], e.1, window)|
        && |r.syncBuffer| <= |q| && r.syncBuffer == q[|q| - |r.syncBuffer|..]
        && ((forall j :: 0 <= j < |q| ==> !Stale(q[j], e.1, window)) ==> r.syncBuffer == q)
        && ((exists j :: 0 <= j < |q| && Stale(q[j], e.1, window)) ==>
              var i := |q| - |r.syncBuffer|;
              i < |q| && Stale(q[i], e.1, window) && forall j :: i < j < |q| ==> !Stale(q[j], e.1, window))
  {
    InWindowCountSpec(s.syncBuffer, e.1, window);
    LastStaleSpec(s.syncBuffer, e.1, window);
  }

  /** After an event, no queued sync time lies after that event. */
  lemma StepKeepsQueueBound(s: CounterState, sync: u8, window: nat, e: Event)
    requires WellFormed(s) && e.0 < 8
    requires forall k :: 0 <= k < |s.syncBuffer| ==> s.syncBuffer[k] <= e.1
    ensures forall k :: 0 <= k < |Step(s, sync, window, e).syncBuffer| ==> Step(s, sync, window, e).syncBuffer[k] <= e.1
  {
    LastStaleSpec(s.syncBuffer, e.1, window);
  }

  /** In a time-sorted history the sync times are sorted and none is later than the last event. */
  lemma {:induction false} SyncTimesSorted(history: seq<Event>, sync: u8)
    requires SortedByTime(history)
    ensures forall i, j :: 0 <= i < j < |SyncTimes(history, sync)| ==> SyncTimes(history, sync)[i] <= SyncTimes(history, sync)[j]
    ensures forall j :: 0 <= j < |SyncTimes(history, sync)| ==> SyncTimes(history, sync)[j] <= LastTime(history)
  {
    if history != [] {
      var init := history[..|history| - 1];
      SyncTimesSorted(init, sync);
      if init != [] {
        assert LastTime(init) <= LastTime(history);
      }
    }
  }

  /**
   * Streaming invariant: the queue is a suffix of the history's sync times,
   * everything dropped is stale for the last event, and the counters equal the
   * reference counts.
   */
  ghost predicate Tracks(s: CounterState, sync: u8, window: nat, history: seq<Event>, dropped: nat)
    requires WellFormed(s)
  {
    && dropped <= |SyncTimes(history, sync)|
    && s.syncBuffer == SyncTimes(history, sync)[dropped..]
    && (forall j :: 0 <= j < dropped ==> Stale(SyncTimes(history, sync)[j], LastTime(history), window))
    && (forall c :: 0 <= c < CHANNELS ==>
          s.singles[c] == SinglesOf(history, c)
          && s.coincidences[c] == ReferenceCoincidences(history, sync, window, c))
  }

  /** One sync event, no earlier than the history, keeps the streaming invariant. */
  lemma TracksSyncStep(s: CounterState, sync: u8, window: nat, history: seq<Event>, dropped: nat, e: Event)
    requires WellFormed(s) && e.0 < 8 && e.0 == sync
    requires SortedByTime(history) && LastTime(history) <= e.1
    requires Tracks(s, sync, window, history, dropped)
    ensures Tracks(Step(s, sync, window, e), sync, window, history + [e], dropped)
  {
    var st := SyncTimes(history, sync);
    HistoryStep(sync, window, history, e);
    SyncTimesSorted(history, sync);
    assert s.syncBuffer + [e.1] == (st + [e.1])[dropped..];
    assert forall j :: 0 <= j < dropped ==> Stale(st[j], e.1, window);
  }

  /** How the reference definitions extend by one event. */
  lemma HistoryStep(sync: u8, window: nat, history: seq<Event>, e: Event)
    ensures SyncTimes(history + [e], sync) == SyncTimes(history, sync) + (if e.0 == sync then [e.1] else [])
    ensures LastTime(history + [e]) == e.1
    ensures forall c :: 0 <= c < CHANNELS ==>
              SinglesOf(history + [e], c) == SinglesOf(history, c) + (if e.0 as int == c then 1 else 0)
              && ReferenceCoincidences(history + [e], sync, window, c)
                 == ReferenceCoincidences(history, sync, window, c)
                    + (if e.0 as int == c && e.0 != sync then InWindowCount(SyncTimes(history, sync), e.1, window) else 0)
  {
    var h := history + [e];
    assert h[..|h| - 1] == history;
  }

  /** The queue part of the streaming invariant after an event on another channel. */
  lemma OtherStepQueue(queue: seq<nat>, st: seq<nat>, dropped: nat, t: nat, window: nat) returns (dropped': nat)
    requires dropped <= |st| && queue == st[dropped..]
    requires forall i, j :: 0 <= i < j < |st| ==> st[i] <= st[j]
    requires forall j :: 0 <= j < dropped ==> Stale(st[j], t, window)
    ensures dropped' <= |st| && Evict(queue, t, window) == st[dropped'..]
    ensures forall j :: 0 <= j < dropped' ==> Stale(st[j], t, window)
  {
    LastStaleSpec(queue, t, window);
    match LastStale(queue, t, window)
    case Some(i) =>
      assert st[dropped + i] == queue[i];
      assert queue[i..] == st[dropped + i..];
      dropped' := dropped + i;
    case None =>
      dropped' := dropped;
  }

  /** One event on another channel, no earlier than the history, keeps the streaming invariant. */
  lemma TracksOtherStep(s: CounterState, sync: u8, window: nat, history: seq<Event>, dropped: nat, e: Event)
    returns (dropped': nat)
    requires WellFormed(s) && e.0 < 8 && e.0 != sync
    requires SortedByTime(history) && LastTime(history) <= e.1
    requires Tracks(s, sync, window, history, dropped)
    ensures Tracks(Step(s, sync, window, e), sync, window, history + [e], dropped')
  {
    var st := SyncTimes(history, sync);
    var t := e.1;
    var r := Step(s, sync, window, e);
    HistoryStep(sync, window, history, e);
    SyncTimesSorted(history, sync);
    assert forall j :: 0 <= j < dropped ==> Stale(st[j], t, window);
    DropStalePrefix(st, dropped, t, window);
    dropped' := OtherStepQueue(s.syncBuffer, st, dropped, t, window);
    forall c | 0 <= c < CHANNELS
      ensures r.singles[c] == SinglesOf(history + [e], c)
      ensures r.coincidences[c] == ReferenceCoincidences(history + [e], sync, window, c)
    {
    }
  }

  /** A time-sorted history, processed from the initial state, keeps the streaming invariant. */
  lemma {:induction false} RunTracksHistory(sync: u8, window: nat, history: seq<Event>) returns (dropped: nat)
    requires ValidChannels(history) && SortedByTime(history)
    ensures Tracks(Run(Initial(), sync, window, history), sync, window, history, dropped)
  {
    if history == [] {
      dropped := 0;
      return;
    }
    var init, e := history[..|history| - 1], history[|history| - 1];
    assert init + [e] == history;
    var d := RunTracksHistory(sync, window, init);
    var s := Run(Initial(), sync, window, init);
    assert init != [] ==> LastTime(init) <= e.1;
    if e.0 == sync {
      TracksSyncStep(s, sync, window, init, d, e);
      dropped := d;
    } else {
      dropped := TracksOtherStep(s, sync, window, init, d, e);
    }
  }

  /**
   * Although `drain(0..i)` keeps the last stale entry and evicts the rest, the
   * streaming counters over a time-sorted history equal the reference counts
   * taken against every earlier sync event.
   */
  lemma StreamingMatchesReference(sync: u8, window: nat, history: seq<Event>)
    requires ValidChannels(history) && SortedByTime(history)
    ensures forall c :: 0 <= c < CHANNELS ==>
              Run(Initial(), sync, window, history).singles[c] == SinglesOf(history, c)
              && Run(Initial(), sync, window, history).coincidences[c] == ReferenceCoincidences(history, sync, window, c)
  {
    var d := RunTracksHistory(sync, window, history);
  }

  /** Processing `a` and then `b` is processing their concatenation. */
  lemma {:induction false} RunAppend(s: CounterState, sync: u8, window: nat, a: seq<Event>, b: seq<Event>)
    requires WellFormed(s) && ValidChannels(a) && ValidChannels(b)
    ensures ValidChannels(a + b)
    ensures Run(s, sync, window, a + b) == Run(Run(s, sync, window, a), sync, window, b)
  {
    if b == [] {
      assert a + b == a;
    } else {
      var initB := b[..|b| - 1];
      assert (a + b)[..|a + b| - 1] == a + initB;
      assert (a + b)[|a + b| - 1] == b[|b| - 1];
      RunAppend(s, sync, window, a, initB);
    }
  }

  /**
   * The counters stay faithful across bursts: after the events of `history` (any
   * number of earlier bursts), a further burst whose events continue the time
   * order leaves the counters equal to the reference counts of all events so far,
   * and the burst meets the precondition of `ProcessBurst` in that state.
   */
  lemma ResumedRunMatchesReference(sync: u8, window: nat, history: seq<Event>, burst: seq<Event>)
    requires ValidChannels(history) && ValidChannels(burst) && SortedByTime(history + burst)
    ensures var q := Run(Initial(), sync, window, history).syncBuffer;
      burst != [] ==> forall k :: 0 <= k < |q| ==> q[k] <= burst[0].1
    ensures forall c :: 0 <= c < CHANNELS ==>
              Run(Run(Initial(), sync, window, history), sync, window, burst).singles[c]
                == SinglesOf(history + burst, c)
              && Run(Run(Initial(), sync, window, history), sync, window, burst).coincidences[c]
                == ReferenceCoincidences(history + burst, sync, window, c)
  {
    RunAppend(Initial(), sync, window, history, burst);
    StreamingMatchesReference(sync, window, history + burst);
    assert (history + burst)[..|history|] == history;
    assert SortedByTime(history);
    var d := RunTracksHistory(sync, window, history);
    SyncTimesSorted(history, sync);
    if burst != [] && history != [] {
      assert LastTime(history) <= (history + burst)[|history|].1;
    }
  }

  /** Sync events never add coincidences to the sync channel's own slot. */
  lemma {:induction false} SyncSlotStaysZero(sync: u8, window: nat, history: seq<Event>)
    requires ValidChannels(history) && sync < 8
    ensures Run(Initial(), sync, window, history).coincidences[sync as int] == 0
  {
    if history != [] {
      SyncSlotStaysZero(sync, window, history[..|history| - 1]);
    }
  }

  /** A sync event at 100, an event on channel 1 at 150 and one on channel 2 at 5000, window 100. */
  lemma SmallBurst()
    ensures Run(Initial(), 0, 100, [(0, 100), (1, 150), (2, 5000)])
            == CounterState([1, 1, 1, 0, 0, 0, 0, 0], [0, 1, 0, 0, 0, 0, 0, 0], [100])
  {
    var events: seq<Event> := [(0, 100), (1, 150), (2, 5000)];
    assert events[..2] == [(0, 100), (1, 150)];
    assert events[..2][..1] == [(0, 100)];
    assert events[..2][..1][..0] == [];
    var s1 := Step(Initial(), 0, 100, (0, 100));
    assert s1 == CounterState([1, 0, 0, 0, 0, 0, 0, 0], [0, 0, 0, 0, 0, 0, 0, 0], [100]);
    assert LastStale([100], 150, 100) == None;
    assert InWindowCount([100], 150, 100) == 1;
    var s2 := Step(s1, 0, 100, (1, 150));
    assert s2 == CounterState([1, 1, 0, 0, 0, 0, 0, 0], [0, 1, 0, 0, 0, 0, 0, 0], [100]);
    assert LastStale([100], 5000, 100) == Some(0);
    assert InWindowCount([100], 5000, 100) == 0;
    var s3 := Step(s2, 0, 100, (2, 5000));
    assert s3 == CounterState([1, 1, 1, 0, 0, 0, 0, 0], [0, 1, 0, 0, 0, 0, 0, 0], [100]);
    assert Run(Initial(), 0, 100, events[..1]) == s1;
    assert Run(Initial(), 0, 100, events[..2]) == s2;
  }

  /** The counting state of `measure_and_get_counts`: fixed singles and coincidence arrays and the sync queue. */
  class CoincidenceCounter {
    const syncChannel: u8
    const coincidenceWindow: nat
    const singles: array<nat>
    const coincidences: array<nat>
    var syncBuffer: seq<nat>

    ghost predicate Valid()
      reads this
    {
      singles.Length == CHANNELS && coincidences.Length == CHANNELS && singles != coincidences
    }

    ghost function State(): (s: CounterState)
      reads this, singles, coincidences
      requires Valid()
      ensures WellFormed(s)
    {
      CounterState(singles[..], coincidences[..], syncBuffer)
    }

    constructor (syncChannel: u8, coincidenceWindow: nat)
      ensures Valid() && fresh(singles) && fresh(coincidences)
      ensures this.syncChannel == syncChannel && this.coincidenceWindow == coincidenceWindow
      ensures State() == Initial()
    {
      this.syncChannel := syncChannel;
      this.coincidenceWindow := coincidenceWindow;
      singles := new nat[CHANNELS](_ => 0);
      coincidences := new nat[CHANNELS](_ => 0);
      syncBuffer := [];
    }

    /**
     * Processes one event. The channel must index the arrays, and no queued sync
     * time may lie after the event (the unsigned subtraction of the delta).
     */
    method ProcessEvent(channel: u8, time: nat)
      requires Valid() && channel < 8
      requires forall k :: 0 <= k < |syncBuffer| ==> syncBuffer[k] <= time
      modifies this`syncBuffer, singles, coincidences
      ensures Valid()
      ensures State() == Step(old(State()), syncChannel, coincidenceWindow, (channel, time))
    {
      var c := channel as int;
      singles[c] := singles[c] + 1;
      if channel == syncChannel {
        syncBuffer := syncBuffer + [time];
      } else {
        ghost var queue := syncBuffer;
        var removeIndex: Option<nat> := None;
        var i := 0;
        while i < |syncBuffer|
          invariant syncBuffer == queue
          invariant 0 <= i <= |syncBuffer|
          invariant removeIndex == LastStale(syncBuffer[..i], time, coincidenceWindow)
          invariant coincidences[..] == old(coincidences[..])[c := old(coincidences[c]) + InWindowCount(syncBuffer[..i], time, coincidenceWindow)]
          invariant singles[..] == old(singles[..])[c := old(singles[c]) + 1]
        {
          assert syncBuffer[..i + 1][..i] == syncBuffer[..i];
          var deltaT := time - syncBuffer[i];
          if deltaT > coincidenceWindow {
            removeIndex := Some(i);
          } else {
            coincidences[c] := coincidences[c] + 1;
          }
          i := i + 1;
        }
        assert syncBuffer[..|syncBuffer|] == syncBuffer;
        if removeIndex.Some? {
          syncBuffer := syncBuffer[removeIndex.value..];
        }
      }
    }

    /** Processes a time-sorted burst of events in order. */
    method ProcessBurst(events: seq<Event>)
      requires Valid() && ValidChannels(events) && SortedByTime(events)
      requires events != [] ==> forall k :: 0 <= k < |syncBuffer| ==> syncBuffer[k] <= events[0].1
      modifies this`syncBuffer, singles, coincidences
      ensures Valid()
      ensures State() == Run(old(State()), syncChannel, coincidenceWindow, events)
    {
      for n := 0 to |events|
        invariant Valid()
        invariant State() == Run(old(State()), syncChannel, coincidenceWindow, events[..n])
        invariant n < |events| ==> forall k :: 0 <= k < |syncBuffer| ==> syncBuffer[k] <= events[n].1
      {
        assert events[..n + 1][..n] == events[..n];
        var e := events[n];
        ghost var before := State();
        ProcessEvent(e.0, e.1);
        StepKeepsQueueBound(before, syncChannel, coincidenceWindow, e);
      }
      assert events[..|events|] == events;
    }
  }
}
