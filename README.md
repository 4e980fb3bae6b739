# Host timing event queue and wall clock

A Dafny model of two pieces of the emulator's timing core:

- **`Core::HostTiming::CoreTiming`.** This is the scheduler's pending-event queue. It is a vector of entries
  `{time, fifo_order, userdata, type}` kept as a binary min-heap under `std::greater<>` on the key
  `(time, fifo_order)`. The model covers:
  - the entry ordering operators;
  - the insertion counter `event_fifo_id` and its reset in `Initialize`;
  - `ScheduleEvent` (append plus `push_heap`);
  - `UnscheduleEvent` and `RemoveEvent` (`remove_if`, `erase`, `make_heap`);
  - `ClearPendingEvents`;
  - the drain loop of `Advance`, which pops every due entry in key order and invokes the callback of each
    entry whose type is still alive, passing its userdata and its lateness.
- **`Common::WallClock`.** This is the emulated-time source. The model covers:
  - the base class's stored frequencies and native flag;
  - the portable `StandardWallClock`, with its elapsed-time readings and its cycle conversions
    `floor(ns * frequency / 10^9)` through a 128-bit product;
  - the factory `CreateBestMatchingClock`, which chooses between the native and the standard clock on
    x86-64 and always picks the standard clock elsewhere.

Files:

- `ints.dfy` (module `Ints`): the fixed-width integer types, the signed-to-unsigned cast and the wrapping counter increment.
  - `ToU64` is a signed-to-unsigned cast.
  - `IncU64` is a u64 post-increment that wraps.
- `event_queue.dfy` (module `EventQueue`) holds:
  - the entry datatype and its ordering;
  - `remove_if` followed by `erase`, as a filter with exact per-entry counts;
  - the three standard heap algorithms, written as textbook sift-up, sift-down and Floyd construction.
    Their contracts are exactly what the C++ standard promises: a heap holding a permutation of the input.
- `host_timing.dfy` (module `HostTiming`) holds the class `CoreTiming`. Its `seq` field is reassigned by each
  operation, and the drain loop is a `while` loop with its invariants.
- `host_timing_test.dfy` (module `HostTimingTest`) holds the repository's `HostTiming[BasicOrder]` scenario as a
  client of the class, with the scenario's promise proved: callbacks fire in scheduling-delay order with their own
  userdata.
- `wall_clock.dfy` (module `Common`) holds the wall clock as an immutable datatype, with pure functions over it.

Inputs the source reads from its environment are parameters of the model:

| source input | model parameter |
|---|---|
| the global time reading `GetGlobalTimeNs()` | `now` |
| `steady_clock::now()` | `now` |
| the CPU capability probe | `CpuCaps` |
| `EstimateRDTSCFrequency()` | `estimated` |
| `weak_ptr::lock()` | a set `alive` of event-type identities; an entry's type locks to itself when its identity is in `alive`, and to the null pointer otherwise |

The `event_type.get()` comparison in the removal predicates compares the locked pointer with the argument, so an
argument that is the null pointer (`TypeRef.Null`) matches exactly the entries whose type has expired.

`UnscheduleEvent` removes every entry whose type and userdata match, not only the earliest one
(`src/core/host_timing.cpp:83-91`); `HostTiming.CoreTiming.UnscheduleEvent` states that.

## Model

| member | source | states |
|---|---|---|
| EventQueue.Less | src/core/host_timing.cpp:34-36 | `operator<` compares by time first; only on equal times does the smaller insertion number come first. |
| EventQueue.Greater | src/core/host_timing.cpp:30-32 | `operator>` is `operator<` with its arguments swapped, and the two never hold of one pair together. |
| EventQueue.OrderIsStrictTotalOnKeys | src/core/host_timing.cpp:28-36 | `>` and `<` are mirror images of one strict total order on `(time, fifo_order)`. Equal keys are the only incomparable pairs. Equal times are decided by insertion number, and different times by time alone. |
| EventQueue.AscendingUniqueIsStrict | src/core/host_timing.cpp:30-36 | A sequence with no inversion under `>` whose insertion numbers are pairwise distinct is strictly ascending under `<`. |
| EventQueue.StrictlyAscendingIsUnique | src/core/host_timing.cpp:28-36 | Two strictly ascending sequences holding the same multiset of entries are equal, so the order in which the queue hands out a given set of entries is determined by their keys alone. |
| EventQueue.RemoveIf | src/core/host_timing.cpp:83-89 | Each entry the predicate accepts occurs 0 times in the result. Every other entry occurs exactly as often as before. The result keeps its length exactly when nothing matched, and in that case it is the input unchanged. |
| EventQueue.HeapFrontIsMinimum | src/core/host_timing.cpp:128-129 | The front of a heap under `std::greater<>` is not greater than any entry, so it is a minimum of the queue. |
| EventQueue.HeapFrontIsMinimumAll | src/core/host_timing.cpp:128-129 | The front of a non-empty heap is not greater than any member. |
| EventQueue.SiftDown | src/core/host_timing.cpp:130 | Restores the heap property on a window whose only defect is at its top. The result is a permutation of the input that is unchanged outside the window. |
| EventQueue.PushHeap | src/core/host_timing.cpp:73 | Given a heap followed by one new entry, returns a heap holding the same multiset. |
| EventQueue.PopHeap | src/core/host_timing.cpp:130-131 | Moves the front of a non-empty heap to the last position, and leaves the rest a heap holding the other entries. |
| EventQueue.MakeHeap | src/core/host_timing.cpp:90 | Returns a heap holding the same multiset as any input. |
| Ints.ToU64 | src/core/host_timing.cpp:69 | A non-negative signed value keeps its value. A negative one becomes itself plus 2^64, which is above the largest signed 64-bit value. |
| Ints.IncU64 | src/core/host_timing.cpp:71 | The counter moves on by one, and wraps to 0 after 2^64 - 1. |
| HostTiming.Lock | src/core/host_timing.cpp:134 | A type reference locks to itself exactly when it is alive, and to the null pointer otherwise. |
| HostTiming.DueTime | src/core/host_timing.cpp:69 | The due time is `now + ns_into_future` when that sum is non-negative. A negative sum wraps to a value above the signed maximum. |
| HostTiming.NegativeDueTimeNeverDue | src/core/host_timing.cpp:69 | An entry whose signed due time is negative is never due at any non-negative global time, so the drain loop never fires it. |
| HostTiming.Invoke | src/core/host_timing.cpp:134-136 | A fired entry yields exactly one callback, holding its own type, its own userdata and lateness `global_timer - time >= 0`, when its type is alive. It yields none when its type has expired. |
| HostTiming.Invocations | src/core/host_timing.cpp:128-139 | A sequence of fired entries yields at most one callback each. Each callback belongs to a live type and has a lateness between 0 and the global time. |
| HostTiming.InvocationsOfLiveTypes | src/core/host_timing.cpp:134-136 | When every fired type is alive, the callbacks correspond one to one and in order with the fired entries, each carrying that entry's type, its userdata and its lateness. |
| HostTiming.MatchesType | src/core/host_timing.cpp:111-113 | For a live type argument, an entry matches exactly when its type is that type. For a null argument, an entry matches exactly when its type has expired. |
| HostTiming.MatchesTypeAndData | src/core/host_timing.cpp:83-85 | An entry matches exactly when it matches the type as `RemoveEvent` does and also carries the given userdata. |
| HostTiming.CoreTiming.constructor | src/core/host_timing.cpp:39 | A new scheduler has an empty queue, counter 0 and global time 0. |
| HostTiming.CoreTiming.Initialize | src/core/host_timing.cpp:46-47 | Resets the counter to 0 and changes nothing else. On an empty queue, distinct fresh insertion numbers are guaranteed from then on. |
| HostTiming.CoreTiming.ScheduleEvent | src/core/host_timing.cpp:66-73 | Adds exactly one entry `{DueTime(now, delay), old counter, userdata, type}`, keeps every earlier entry, keeps the heap, and advances the counter by one. The insertion numbers stay distinct and below the counter while the counter does not wrap. |
| HostTiming.CoreTiming.UnscheduleEvent | src/core/host_timing.cpp:80-92 | Removes every entry whose locked type and userdata both match, and keeps every other entry with its multiplicity. The heap is rebuilt. The call leaves the queue unchanged when nothing matches. |
| HostTiming.CoreTiming.RemoveEvent | src/core/host_timing.cpp:108-120 | Removes every entry whose locked type matches, whatever its userdata, and keeps every other entry. The heap is rebuilt. The call leaves the queue unchanged when nothing matches. |
| HostTiming.CoreTiming.ClearPendingEvents | src/core/host_timing.cpp:104-106 | Leaves the queue empty and the counter and global time as they were. |
| HostTiming.CoreTiming.AdvanceOnce | src/core/host_timing.cpp:126-139 | Sets the global time. The fired entries and the remaining queue partition the old queue. Every fired entry is due, and every remaining entry is still in the future. Entries fire in ascending key order, strictly ascending when the insertion numbers are fresh. The callback log is `Invocations` of the fired entries. |
| HostTiming.PushedFresh | src/core/host_timing.cpp:71 | Adding an entry numbered with the counter's current value to a queue of distinct, smaller numbers gives a queue of distinct numbers below the next counter value. |
| HostTimingTest.AllScheduled | src/tests/core/host_timing.cpp:66-69 | The five entries the scheduling loop queues are strictly ascending in loop order. |
| HostTimingTest.ScheduleAll | src/tests/core/host_timing.cpp:66-69 | On a freshly initialised scheduler, the scheduling loop leaves exactly the five entries in the queue, each with its own insertion number 0 to 4, and the queue is a heap of distinct fresh insertion numbers. |
| HostTimingTest.BasicOrder | src/tests/core/host_timing.cpp:50-78 | After the five scheduling calls and a drain at a late enough time, exactly five callbacks run. The `k`-th is `calls_order[k]` with userdata `CB_IDS[calls_order[k]]`, its lateness is the drain time minus its due time (at least 0), and all five callbacks ran. |
| HostTimingTest.FiredInOrder | src/tests/core/host_timing.cpp:27-35 | The test's per-callback checks hold for the callbacks of the five entries fired in scheduling order: callback `k` is `calls_order[k]` with its own userdata and a non-negative lateness, and every callback runs. |
| HostTimingTest.DrainedAll | src/tests/core/host_timing.cpp:75-78 | A drain at a time after every due time empties the queue and fires the five entries in scheduling order. |
| Common.WallClock.IsNative | src/common/wall_clock.h:22-24 | Returns the stored `is_native` flag. |
| Common.IsNativeIsConstructorFlag | src/common/wall_clock.h:22-29 | `IsNative()` returns the flag the clock was constructed with. |
| Common.NewStandardWallClock | src/common/wall_clock.cpp:20-23 | A standard clock is not native, stores both frequencies as given, and starts at the reading taken at construction. |
| Common.NewNativeClock | src/common/x64/native_clock.h:17 | A native clock is native and stores both frequencies and the counter frequency as given. |
| Common.GetTimeNS | src/common/wall_clock.cpp:25-29 | The reading is the time elapsed since the start time. |
| Common.GetTimeUS | src/common/wall_clock.cpp:31-35 | The reading is the elapsed nanoseconds truncated to whole microseconds. |
| Common.GetTimeMS | src/common/wall_clock.cpp:37-41 | The reading is the elapsed nanoseconds truncated to whole milliseconds. |
| Common.TimeUnitsAgree | src/common/wall_clock.cpp:25-41 | Taken from one elapsed value, milliseconds are microseconds truncated by 1000, and microseconds are nanoseconds truncated by 1000. |
| Common.ReadingsMonotone | src/common/wall_clock.cpp:25-41 | A later reading is never smaller, in any of the three units. |
| Common.Multiply64Into128 | src/common/wall_clock.cpp:45 | The product of two 64-bit values always fits in 128 bits and is exact. |
| Common.Divide128On32 | src/common/wall_clock.cpp:46 | The remainder is below the divisor. When the quotient fits in 64 bits, quotient times divisor plus remainder is the dividend. |
| Common.GetClockCycles | src/common/wall_clock.cpp:43-47 | Returns `floor(ns * emulated_clock_frequency / 10^9)` whenever that quotient fits in 64 bits. |
| Common.GetCPUCycles | src/common/wall_clock.cpp:49-53 | Returns `floor(ns * emulated_cpu_frequency / 10^9)` whenever that quotient fits in 64 bits. |
| Common.CyclesMonotone | src/common/wall_clock.cpp:43-53 | Both cycle readings never decrease between two readings of one clock, while the later quotient fits in 64 bits. |
| Common.QuotientFitsForU32Frequency | src/common/wall_clock.h:38 | With a frequency below 2^32, the quotient fits in 64 bits for any elapsed time below 4 * 10^18 ns. |
| Common.QuotientFitsForLargeFrequency | src/common/wall_clock.cpp:43-53 | Frequencies up to 10^10 Hz and elapsed times up to 10^13 ns convert without overflow. |
| Common.FactoryClockConvertsExactly | src/common/wall_clock.h:38 | For a clock with both frequencies below 2^32, as the factory builds them, both cycle readings equal the exact floor quotient for elapsed times below 4 * 10^18 ns. |
| Common.RtscFrequency | src/common/wall_clock.cpp:62-71 | The chosen counter frequency is `base_frequency * 10^6` when the counter is invariant and the base frequency is known, and the estimate when the counter is invariant and the base frequency is 0. It is 0 exactly when the counter is not invariant, or when both the base frequency and the estimate are 0. |
| Common.CreateBestMatchingClock | src/common/wall_clock.cpp:61-79 | The x86-64 factory keeps both frequencies. It returns the standard clock started now exactly when the chosen counter frequency is 0. Otherwise it returns a native clock over that frequency. The clock is native exactly when it is a native clock. |
| Common.EstimatorNotConsulted | src/common/wall_clock.cpp:64-70 | When the counter is not invariant, or its base frequency is known, the estimate plays no part in the factory's result. |
| Common.CreateBestMatchingClockPortable | src/common/wall_clock.cpp:83-86 | On other architectures the factory always returns a standard, non-native clock started now, keeping both frequencies. |

## Left out

Concurrency:
- The timer thread, `inner_mutex`, `condvar`, `is_set`, `shutting_down` and `Shutdown` are left out as concurrency
  plumbing (src/core/host_timing.cpp:51, :54-64, :74-77, :132, :138, :141-145).
- Only the sequential drain step is modelled, as `AdvanceOnce`.
- Callbacks that re-enter the scheduler while the mutex is released are not modelled.
- Scheduling from other threads between pops is not modelled.

`Advance`:
- The wait at `src/core/host_timing.cpp:140` reads the front of a queue that may be empty, which is undefined
  behaviour in C++. It is not modelled.
- The outer loop of `Advance` is not modelled, so each of its iterations is one `AdvanceOnce` call.

Time sources:
- `GetGlobalTimeNs`, `GetGlobalTimeUs` and `start_time` are not modelled: the reading they produce is the `now`
  parameter.
- `GetCPUTicks` and `GetClockTicks` are not modelled: they call `nsToCycles` and `nsToClockCycles`, whose file is
  not part of this model.

Not defined in the files modelled:
- `Pause`, `SyncPause` and `HasPendingEvents` are not part of this model. The test scenario therefore leaves out its
  pause handshake and its busy wait.
- The `CoreTiming` header with its default member initialisers is not part of this model. The counter and the global
  time are taken to start at 0, and the global time to hold a non-negative signed 64-bit value.
- `CreateEvent` and `ev_lost` are left out. The model gives an event type only its identity, and `ev_lost` is never
  scheduled in the modelled code.

Heap and wide arithmetic:
- The exact arrangement libstdc++'s heap algorithms produce is left out, because the C++ standard promises only a heap
  holding a permutation. The model's sift-up and sift-down may arrange the entries differently, and no contract
  depends on the arrangement.
- `Multiply64Into128` and `Divide128On32` are modelled by their arithmetic effect. `common/uint128` is not part of
  this model, and neither is the native division instruction's behaviour on a quotient overflow.
- Divide128On32: when the quotient does not fit in 64 bits, the model reduces it modulo 2^64; the division identity is
  stated only when the quotient fits.

Native clock and capability probe:
- The `X64::NativeClock` readings and `EstimateRDTSCFrequency` are not modelled: their implementation is not part of
  this model. `NativeClock` is taken to pass `is_native = true` to the base.
- The CPU capability probe is reduced to the two fields the factory reads.

Out of scope:
- `spin_lock`, `fiber`, `cpu_manager`, the kernel synchronisation and physical-core files, `memory_detect` and the Qt
  install dialog are outside the timing core.
- The test's floating-point delay report is left out.

Weaker contracts:
- HostTimingTest.BasicOrder: assumes the five clock readings taken by the scheduling calls never decrease.
  They come from `GetGlobalTimeNs` over `system_clock` (src/core/host_timing.cpp:149-153), which can step
  backwards. If it steps back by more than one microsecond between two scheduling calls, those two callbacks swap
  and the proved order does not hold.
- HostTiming.CoreTiming.AdvanceOnce: takes the global time as a non-negative signed 64-bit reading. A system clock
  set back before `start_time` is not modelled.
- HostTiming.CoreTiming.ScheduleEvent: insertion-number freshness is promised only while the counter is below
  2^64 - 1, because the counter wraps after that.
- HostTiming.CoreTiming.ScheduleEvent: the signed sum `now + ns_into_future` is required not to overflow, because
  signed overflow is undefined in C++.
- Common.GetTimeNS: requires the reading to be no earlier than the start time, which holds because `steady_clock` is
  monotonic. Monotonicity is an assumption about the host, not proved.
- Common.CyclesMonotone: monotonicity is stated only while the later quotient fits in 64 bits, since the truncated
  quotient wraps past that.
