/** `Core::HostTiming::CoreTiming`: the host-clock driven event scheduler.
    Its pending events live in a vector arranged as a binary min-heap on
    `(time, fifo_order)`; scheduling pushes onto the heap, unscheduling
    filters and rebuilds it, and the drain step of `Advance` pops every due
    entry in order and calls its event type's callback with the lateness.

    Readings of `std::chrono::system_clock::now()` relative to the start time
    are parameters (`now`). Which event types are still owned somewhere is
    the parameter `alive`: an entry's `std::weak_ptr` locks exactly when its
    type's identity is in that set. Callbacks are not run; each invocation
    the drain step would make is appended to a log. */
module HostTiming {
  import opened Ints
  import opened EventQueue

  /** `std::weak_ptr::lock()`: the reference while its event type is alive,
      the empty pointer once the type has expired (or was never set). */
  function Lock(t: TypeRef, alive: set<nat>): (r: TypeRef)
    ensures r.Ref? <==> t.Ref? && t.id in alive
    ensures r.Ref? ==> r == t
  {
    if t.Ref? && t.id in alive then t else Null
  }

  /** The due time `ScheduleEvent` stores: `static_cast<u64>(now + ns_into_future)`.
      The sum is signed 64-bit arithmetic, which must not overflow. */
  function DueTime(now: s64, nsIntoFuture: s64): (t: u64)
    requires S64_MIN <= now + nsIntoFuture <= S64_MAX
    ensures now + nsIntoFuture >= 0 ==> t == now + nsIntoFuture
    ensures now + nsIntoFuture < 0 ==> t == now + nsIntoFuture + U64_MODULUS && t > S64_MAX
  {
    ToU64(now + nsIntoFuture)
  }

  /** An entry whose due time wrapped around (the signed sum was negative)
      lies beyond every non-negative reading of the clock, so the drain step
      never fires it. */
  lemma NegativeDueTimeNeverDue(now: s64, nsIntoFuture: s64, globalTimer: u64)
    requires S64_MIN <= now + nsIntoFuture < 0
    requires globalTimer <= S64_MAX
    ensures DueTime(now, nsIntoFuture) > globalTimer
  {
  }

  /** One call `event_type->callback(userdata, lateness)`. */
  datatype Invocation = Invocation(eventType: nat, userdata: u64, lateness: s64)

  /** What the drain step does with one popped entry: call its type's
      callback with the stored userdata and `global_timer - time`, or nothing
      when the type has expired. */
  function Invoke(e: Event, globalTimer: u64, alive: set<nat>): (r: seq<Invocation>)
    requires e.time <= globalTimer <= S64_MAX
    ensures |r| == 1 <==> Lock(e.eventType, alive).Ref?
    ensures |r| == 0 <==> Lock(e.eventType, alive).Null?
    ensures |r| == 1 ==> r[0] == Invocation(e.eventType.id, e.userdata, globalTimer - e.time)
    ensures |r| == 1 ==> r[0].lateness >= 0
  {
    match Lock(e.eventType, alive)
    case Ref(id) => [Invocation(id, e.userdata, globalTimer - e.time)]
    case Null => []
  }

  /** The callbacks a sequence of popped entries makes, in popping order. */
  function {:induction false} Invocations(fired: seq<Event>, globalTimer: u64, alive: set<nat>): (r: seq<Invocation>)
    requires globalTimer <= S64_MAX
    requires forall i :: 0 <= i < |fired| ==> fired[i].time <= globalTimer
    ensures |r| <= |fired|
    ensures forall j :: 0 <= j < |r| ==> 0 <= r[j].lateness <= globalTimer
    ensures forall j :: 0 <= j < |r| ==> r[j].eventType in alive
  {
    if fired == [] then []
    else
      var last := fired[|fired| - 1];
      Invocations(fired[..|fired| - 1], globalTimer, alive) + Invoke(last, globalTimer, alive)
  }

  /** When every popped entry's type is still alive, the callbacks are one
      per entry, in popping order, each with its entry's type, userdata and
      lateness. */
  lemma {:induction false} InvocationsOfLiveTypes(fired: seq<Event>, globalTimer: u64, alive: set<nat>)
    requires globalTimer <= S64_MAX
    requires forall i :: 0 <= i < |fired| ==> fired[i].time <= globalTimer
    requires forall i :: 0 <= i < |fired| ==> fired[i].eventType.Ref? && fired[i].eventType.id in alive
    ensures |Invocations(fired, globalTimer, alive)| == |fired|
    ensures forall i :: 0 <= i < |fired| ==>
      Invocations(fired, globalTimer, alive)[i]
        == Invocation(fired[i].eventType.id, fired[i].userdata, globalTimer - fired[i].time)
  {
    if fired != [] {
      InvocationsOfLiveTypes(fired[..|fired| - 1], globalTimer, alive);
    }
  }

  /** Entries `RemoveEvent(event_type)` removes: those whose type is that
      live type, or, for a null argument, those whose type has expired. */
  predicate MatchesType(e: Event, eventType: TypeRef, alive: set<nat>): (b: bool)
    ensures eventType.Ref? ==> (b <==> e.eventType == eventType && eventType.id in alive)
    ensures eventType.Null? ==> (b <==> !(e.eventType.Ref? && e.eventType.id in alive))
  {
    Lock(e.eventType, alive) == eventType
  }

  /** Entries `UnscheduleEvent(event_type, userdata)` removes: the entries
      `RemoveEvent(event_type)` would remove that also carry `userdata`. */
  predicate MatchesTypeAndData(e: Event, eventType: TypeRef, userdata: u64, alive: set<nat>): (b: bool)
    ensures b <==> MatchesType(e, eventType, alive) && e.userdata == userdata
    ensures eventType.Ref? ==> (b <==> e.eventType == eventType && eventType.id in alive && e.userdata == userdata)
  {
    Lock(e.eventType, alive) == eventType && e.userdata == userdata
  }

  class CoreTiming {
    /** `event_queue`, kept as a heap under `std::greater<>`. */
    var eventQueue: seq<Event>
    /** `event_fifo_id`, the insertion counter. */
    var eventFifoId: u64
    /** `global_timer`, the clock reading of the last drain step. */
    var globalTimer: u64

    /** The queue is a heap, and the last reading is a non-negative signed
        64-bit count. */
    ghost predicate Valid()
      reads this
    {
      IsHeap(eventQueue) && globalTimer <= S64_MAX
    }

    /** Every queued insertion number was handed out by the counter and no
        two entries share one. `Initialize` on a non-empty queue and a
        wrap-around of the counter are the two ways to lose this. */
    ghost predicate FifoFresh()
      reads this
    {
      FifoFresh'(eventQueue, eventFifoId)
    }

    /** `CoreTiming() = default`, with the members' zero initialisers. */
    constructor ()
      ensures Valid() && FifoFresh()
      ensures eventQueue == [] && eventFifoId == 0 && globalTimer == 0
    {
      eventQueue := [];
      eventFifoId := 0;
      globalTimer := 0;
    }

    /** `Initialize`: restarts the insertion counter; the queue is left as it is. */
    method Initialize()
      requires Valid()
      modifies this
      ensures Valid()
      ensures eventFifoId == 0
      ensures eventQueue == old(eventQueue) && globalTimer == old(globalTimer)
      ensures old(eventQueue) == [] ==> FifoFresh()
    {
      eventFifoId := 0;
    }

    /** `ScheduleEvent`: one new entry due at `now + nsIntoFuture`, numbered
        with the counter's current value; the counter moves on by one and
        every earlier entry stays queued. */
    method ScheduleEvent(now: s64, nsIntoFuture: s64, eventType: TypeRef, userdata: u64)
      requires Valid()
      requires S64_MIN <= now + nsIntoFuture <= S64_MAX
      modifies this
      ensures Valid()
      ensures multiset(eventQueue)
        == multiset(old(eventQueue)) + multiset{Event(DueTime(now, nsIntoFuture), old(eventFifoId), userdata, eventType)}
      ensures eventFifoId == IncU64(old(eventFifoId))
      ensures globalTimer == old(globalTimer)
      ensures old(FifoFresh()) && old(eventFifoId) < U64_MODULUS - 1 ==> FifoFresh()
    {
      ghost var oldQueue := eventQueue;
      var timeout := DueTime(now, nsIntoFuture);
      var entry := Event(timeout, eventFifoId, userdata, eventType);
      eventQueue := eventQueue + [entry];
      eventFifoId := IncU64(eventFifoId);
      assert eventQueue[..|eventQueue| - 1] == oldQueue;
      eventQueue := PushHeap(eventQueue);
      assert multiset(eventQueue) == multiset(oldQueue) + multiset{entry};
      if FifoFresh'(oldQueue, entry.fifoOrder) {
        PushedFresh(oldQueue, eventQueue, entry);
      }
    }

    /** `UnscheduleEvent`: drops every entry of that type and userdata, keeps
        every other one, and rebuilds the heap only when something went. */
    method UnscheduleEvent(eventType: TypeRef, userdata: u64, alive: set<nat>)
      requires Valid()
      modifies this
      ensures Valid()
      ensures forall e :: (multiset(eventQueue)[e]
        == if MatchesTypeAndData(e, eventType, userdata, alive) then 0 else multiset(old(eventQueue))[e])
      ensures forall e :: e in eventQueue ==> !MatchesTypeAndData(e, eventType, userdata, alive)
      ensures (forall e :: e in old(eventQueue) ==> !MatchesTypeAndData(e, eventType, userdata, alive))
        ==> eventQueue == old(eventQueue)
      ensures eventFifoId == old(eventFifoId) && globalTimer == old(globalTimer)
      ensures old(FifoFresh()) ==> FifoFresh()
    {
      ghost var oldQueue := eventQueue;
      var kept := RemoveIf(eventQueue, e => MatchesTypeAndData(e, eventType, userdata, alive));
      if |kept| != |eventQueue| {
        eventQueue := MakeHeap(kept);
      }
      KeptPart(oldQueue, eventQueue);
    }

    /** `RemoveEvent`: drops every entry of that type whatever its userdata,
        keeps every other one, and rebuilds the heap only when something went. */
    method RemoveEvent(eventType: TypeRef, alive: set<nat>)
      requires Valid()
      modifies this
      ensures Valid()
      ensures forall e :: (multiset(eventQueue)[e]
        == if MatchesType(e, eventType, alive) then 0 else multiset(old(eventQueue))[e])
      ensures forall e :: e in eventQueue ==> !MatchesType(e, eventType, alive)
      ensures (forall e :: e in old(eventQueue) ==> !MatchesType(e, eventType, alive))
        ==> eventQueue == old(eventQueue)
      ensures eventFifoId == old(eventFifoId) && globalTimer == old(globalTimer)
      ensures old(FifoFresh()) ==> FifoFresh()
    {
      ghost var oldQueue := eventQueue;
      var kept := RemoveIf(eventQueue, e => MatchesType(e, eventType, alive));
      if |kept| != |eventQueue| {
        eventQueue := MakeHeap(kept);
      }
      KeptPart(oldQueue, eventQueue);
    }

    /** `ClearPendingEvents`. */
    method ClearPendingEvents()
      requires Valid()
      modifies this
      ensures Valid() && FifoFresh()
      ensures eventQueue == []
      ensures eventFifoId == old(eventFifoId) && globalTimer == old(globalTimer)
    {
      eventQueue := [];
    }

    /** One pass of `Advance` up to its wait: reads the clock into
        `global_timer`, then pops the front while it is due. The entries
        popped (`fired`) are exactly the due ones, in ascending order
        (strictly, while insertion numbers are unique); what stays queued is
        all in the future; `log` is the callbacks made for them. */
    method AdvanceOnce(now: s64, alive: set<nat>) returns (fired: seq<Event>, log: seq<Invocation>)
      requires Valid()
      requires now >= 0
      modifies this
      ensures Valid()
      ensures globalTimer == now && eventFifoId == old(eventFifoId)
      ensures multiset(fired) + multiset(eventQueue) == multiset(old(eventQueue))
      ensures forall i :: 0 <= i < |fired| ==> fired[i].time <= now
      ensures forall e :: e in eventQueue ==> e.time > now
      ensures Ascending(fired)
      ensures old(FifoFresh()) ==> FifoFresh() && StrictlyAscending(fired)
      ensures log == Invocations(fired, now, alive)
    {
      ghost var oldQueue := eventQueue;
      globalTimer := now;
      fired, log := [], [];
      while eventQueue != [] && eventQueue[0].time <= globalTimer
        invariant IsHeap(eventQueue)
        invariant globalTimer == now && eventFifoId == old(eventFifoId)
        invariant DrainedSoFar(oldQueue, fired, eventQueue, now)
        invariant log == Invocations(fired, now, alive)
        decreases |eventQueue|
      {
        var evt := eventQueue[0];
        ghost var before := eventQueue;
        var arranged := PopHeap(eventQueue);
        eventQueue := arranged[..|arranged| - 1];
        PoppedFront(before, arranged, eventQueue);
        DrainStep(oldQueue, fired, before, eventQueue, now);
        ghost var firedBefore := fired;
        log := log + Invoke(evt, globalTimer, alive);
        fired := fired + [evt];
        assert fired[..|fired| - 1] == firedBefore;
      }
      DrainExit(oldQueue, fired, eventQueue, now);
    }
  }

  /** The drain loop's invariant: `fired` and `queue` together are the
      queue the pass began with, everything popped was due, in ascending
      order, and precedes-or-equals everything still queued. */
  ghost predicate DrainedSoFar(oldQueue: seq<Event>, fired: seq<Event>, queue: seq<Event>, now: int) {
    && multiset(fired) + multiset(queue) == multiset(oldQueue)
    && (forall i :: 0 <= i < |fired| ==> fired[i].time <= now)
    && Ascending(fired)
    && (forall i, e :: 0 <= i < |fired| && e in queue ==> !Greater(fired[i], e))
  }

  /** Popping the due front of the heap keeps the drain loop's invariant. */
  lemma DrainStep(oldQueue: seq<Event>, fired: seq<Event>, before: seq<Event>, after: seq<Event>, now: int)
    requires DrainedSoFar(oldQueue, fired, before, now)
    requires IsHeap(before) && |before| > 0 && before[0].time <= now
    requires multiset(after) + multiset{before[0]} == multiset(before)
    requires forall e :: e in after ==> e in before
    ensures DrainedSoFar(oldQueue, fired + [before[0]], after, now)
  {
    HeapFrontIsMinimumAll(before);
    var evt := before[0];
    assert evt in before;
    AscendingSnoc(fired, evt);
    assert multiset(fired + [evt]) == multiset(fired) + multiset{evt};
  }

  /** When the loop stops, nothing due is left; with unique insertion
      numbers the popped entries are strictly ascending. */
  lemma DrainExit(oldQueue: seq<Event>, fired: seq<Event>, queue: seq<Event>, now: int)
    requires DrainedSoFar(oldQueue, fired, queue, now)
    requires IsHeap(queue) && (queue == [] || queue[0].time > now)
    ensures forall e :: e in queue ==> e.time > now
    ensures forall e :: e in queue ==> e in oldQueue
    ensures UniqueOrders(multiset(oldQueue)) ==> UniqueOrders(multiset(queue)) && StrictlyAscending(fired)
  {
    if queue != [] {
      HeapFrontIsMinimumAll(queue);
    }
    KeptPart(oldQueue, queue);
    if UniqueOrders(multiset(oldQueue)) {
      UniqueOrdersOfPart(multiset(fired), multiset(oldQueue));
      AscendingUniqueIsStrict(fired);
    }
  }

  /** Every insertion number in `q` is below `counter`, and no two entries
      share one. */
  ghost predicate FifoFresh'(q: seq<Event>, counter: int) {
    (forall e :: e in q ==> e.fifoOrder < counter) && UniqueOrders(multiset(q))
  }

  /** Adding an entry numbered with the counter to a fresh queue gives a
      queue that is fresh for the next counter value. */
  lemma PushedFresh(before: seq<Event>, after: seq<Event>, entry: Event)
    requires FifoFresh'(before, entry.fifoOrder)
    requires multiset(after) == multiset(before) + multiset{entry}
    ensures FifoFresh'(after, entry.fifoOrder + 1)
  {
    assert entry !in multiset(before);
    forall e | e in after ensures e.fifoOrder < entry.fifoOrder + 1 {
      assert e in multiset(after);
      if e != entry {
        assert e in multiset(before);
      }
    }
  }

  /** What is left after `pop_heap` + `pop_back` is the heap minus its front,
      and holds nothing the heap did not. */
  lemma PoppedFront(before: seq<Event>, arranged: seq<Event>, after: seq<Event>)
    requires |before| > 0 && |arranged| == |before|
    requires multiset(arranged) == multiset(before) && arranged[|before| - 1] == before[0]
    requires after == arranged[..|before| - 1]
    ensures multiset(after) + multiset{before[0]} == multiset(before)
    ensures forall e :: e in after ==> e in before
  {
    assert arranged == after + [before[0]];
    forall e | e in after ensures e in before {
      assert e in arranged;
      assert e in multiset(arranged);
      assert e in multiset(before);
    }
  }

  /** A queue whose multiset is contained in another's keeps its entries'
      facts: every entry was there before. */
  lemma KeptPart(before: seq<Event>, after: seq<Event>)
    requires multiset(after) <= multiset(before)
    ensures forall e :: e in after ==> e in before
    ensures UniqueOrders(multiset(before)) ==> UniqueOrders(multiset(after))
  {
    if UniqueOrders(multiset(before)) {
      UniqueOrdersOfPart(multiset(after), multiset(before));
    }
    forall e | e in after ensures e in before {
      assert e in multiset(after);
      assert multiset(after)[e] <= multiset(before)[e];
      assert e in multiset(before);
    }
  }
}
