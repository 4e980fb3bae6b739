/** The `HostTiming[BasicOrder]` scenario: five callbacks scheduled one
    microsecond apart in a shuffled type order fire in due-time order, each
    with its own userdata and a non-negative lateness. */
module HostTimingTest {
  import opened Ints
  import opened EventQueue
  import opened HostTiming

  /** The userdata each callback expects, by callback index. */
  const CB_IDS: seq<u64> := [42, 144, 93, 1026, 0xFFFF7FFFF7FFFF]
  /** The callback scheduled by each iteration of the scheduling loop. */
  const CALLS_ORDER: seq<nat> := [2, 0, 1, 4, 3]
  const ONE_MICRO: int := 1000
  const CALLBACKS: set<nat> := {0, 1, 2, 3, 4}

  /** Clock readings taken by the five `ScheduleEvent` calls, in order, and
      a final reading late enough for every entry to be due. */
  predicate Readings(nows: seq<s64>, tEnd: s64) {
    && |nows| == 5
    && 0 <= nows[0] <= nows[1] <= nows[2] <= nows[3] <= nows[4]
    && nows[4] + 4 * ONE_MICRO + 100 <= tEnd
  }

  /** The entry the `i`-th iteration queues. */
  function Scheduled(nows: seq<s64>, tEnd: s64, i: nat): (e: Event)
    requires Readings(nows, tEnd) && i < 5
    ensures e.time <= tEnd
  {
    Event(DueTime(nows[i], i * ONE_MICRO + 100), i, CB_IDS[CALLS_ORDER[i]], Ref(CALLS_ORDER[i]))
  }

  /** All five entries in the order they are queued. */
  function AllScheduled(nows: seq<s64>, tEnd: s64): (s: seq<Event>)
    requires Readings(nows, tEnd)
    ensures |s| == 5 && StrictlyAscending(s)
    ensures forall i :: 0 <= i < 5 ==> s[i] == Scheduled(nows, tEnd, i)
  {
    [Scheduled(nows, tEnd, 0), Scheduled(nows, tEnd, 1), Scheduled(nows, tEnd, 2),
     Scheduled(nows, tEnd, 3), Scheduled(nows, tEnd, 4)]
  }

  /** The `i`-th due time is a non-negative signed value no later than `tEnd`. */
  lemma ReadingBefore(nows: seq<s64>, tEnd: s64, i: nat)
    requires Readings(nows, tEnd) && i < 5
    ensures 0 <= nows[i] + i * ONE_MICRO + 100 <= tEnd
  {
  }

  /** The `i`-th iteration adds the `i`-th entry to the queue. */
  lemma ScheduleStep(nows: seq<s64>, tEnd: s64, i: nat, before: seq<Event>, after: seq<Event>)
    requires Readings(nows, tEnd) && i < 5
    requires multiset(before) == multiset(AllScheduled(nows, tEnd)[..i])
    requires multiset(after) == multiset(before) + multiset{Scheduled(nows, tEnd, i)}
    ensures multiset(after) == multiset(AllScheduled(nows, tEnd)[..i + 1])
  {
    var s := AllScheduled(nows, tEnd);
    assert s[..i + 1] == s[..i] + [s[i]];
  }

  /** Lines 66-69 on a freshly initialised scheduler: the five entries are
      queued with insertion numbers 0 to 4. */
  method ScheduleAll(coreTiming: CoreTiming, nows: seq<s64>, tEnd: s64)
    requires Readings(nows, tEnd)
    requires coreTiming.Valid() && coreTiming.eventQueue == [] && coreTiming.eventFifoId == 0
    modifies coreTiming
    ensures coreTiming.Valid() && coreTiming.FifoFresh()
    ensures multiset(coreTiming.eventQueue) == multiset(AllScheduled(nows, tEnd))
  {
    var i := 0;
    while i < 5
      invariant 0 <= i <= 5
      invariant coreTiming.Valid() && coreTiming.FifoFresh()
      invariant coreTiming.eventFifoId == i
      invariant multiset(coreTiming.eventQueue) == multiset(AllScheduled(nows, tEnd)[..i])
    {
      ghost var before := coreTiming.eventQueue;
      var order := CALLS_ORDER[i];
      ReadingBefore(nows, tEnd, i);
      coreTiming.ScheduleEvent(nows[i], i * ONE_MICRO + 100, Ref(order), CB_IDS[order]);
      ScheduleStep(nows, tEnd, i, before, coreTiming.eventQueue);
      i := i + 1;
    }
    assert AllScheduled(nows, tEnd)[..5] == AllScheduled(nows, tEnd);
  }

  /** Lines 50-78 with the pause handshake left out: the `k`-th callback to
      run is `CALLS_ORDER[k]`, it receives its own userdata, its lateness is
      the final reading minus its due time, and every callback runs. */
  method BasicOrder(nows: seq<s64>, tEnd: s64) returns (log: seq<Invocation>)
    requires Readings(nows, tEnd)
    ensures |log| == 5
    ensures forall k :: 0 <= k < 5 ==> log[k].eventType == CALLS_ORDER[k]
    ensures forall k :: 0 <= k < 5 ==> log[k].userdata == CB_IDS[log[k].eventType]
    ensures forall k :: 0 <= k < 5 ==> log[k].lateness == tEnd - (nows[k] + k * ONE_MICRO + 100) >= 0
    ensures (set k | 0 <= k < 5 :: log[k].eventType) == CALLBACKS
  {
    var coreTiming := new CoreTiming();
    coreTiming.Initialize();
    ScheduleAll(coreTiming, nows, tEnd);
    var fired;
    fired, log := coreTiming.AdvanceOnce(tEnd, CALLBACKS);
    DrainedAll(nows, tEnd, fired, coreTiming.eventQueue);
    FiredInOrder(nows, tEnd, fired, log);
  }

  /** One drain at `tEnd` fires all five queued entries, in queue order. */
  lemma DrainedAll(nows: seq<s64>, tEnd: s64, fired: seq<Event>, rest: seq<Event>)
    requires Readings(nows, tEnd)
    requires multiset(fired) + multiset(rest) == multiset(AllScheduled(nows, tEnd))
    requires forall e :: e in rest ==> e.time > tEnd
    requires StrictlyAscending(fired)
    ensures fired == AllScheduled(nows, tEnd)
  {
    assert multiset(rest) == multiset{};
    StrictlyAscendingIsUnique(fired, AllScheduled(nows, tEnd));
  }

  /** What the drain reports once it has fired the five entries in order. */
  lemma FiredInOrder(nows: seq<s64>, tEnd: s64, fired: seq<Event>, log: seq<Invocation>)
    requires Readings(nows, tEnd)
    requires fired == AllScheduled(nows, tEnd)
    requires log == Invocations(fired, tEnd, CALLBACKS)
    ensures |log| == 5
    ensures forall k :: 0 <= k < 5 ==> log[k].eventType == CALLS_ORDER[k]
    ensures forall k :: 0 <= k < 5 ==> log[k].userdata == CB_IDS[log[k].eventType]
    ensures forall k :: 0 <= k < 5 ==> log[k].lateness == tEnd - (nows[k] + k * ONE_MICRO + 100) >= 0
    ensures (set k | 0 <= k < 5 :: log[k].eventType) == CALLBACKS
  {
    InvocationsOfLiveTypes(fired, tEnd, CALLBACKS);
    assert log[0].eventType == 2 && log[1].eventType == 0 && log[2].eventType == 1;
    assert log[3].eventType == 4 && log[4].eventType == 3;
  }
}
