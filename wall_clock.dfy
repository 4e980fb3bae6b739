/** `Common::WallClock`: a clock that turns host elapsed time into emulated
    CPU cycles and emulated-clock cycles, its portable variant
    `StandardWallClock` over `std::chrono::steady_clock`, and the factory
    `CreateBestMatchingClock` that picks the variant once per session.

    Clock readings and the results of the CPU capability probe and of the
    counter-frequency estimator are parameters. A clock is an immutable
    value: the frequencies and the native flag are fixed when it is built. */
module Common {
  import opened Ints

  /** The divisor of both cycle conversions. */
  const NS_PER_SECOND: int := 1_000_000_000

  /** A reading of `std::chrono::steady_clock`: a non-negative signed 64-bit
      count of nanoseconds since the clock's epoch. */
  type TimePoint = t: int | 0 <= t <= 0x7FFF_FFFF_FFFF_FFFF

  /** What the derived class adds to the base: the start time of a
      `StandardWallClock`, or the counter frequency of an `X64::NativeClock`. */
  datatype Variant = Standard(startTime: TimePoint) | Native(rtscFrequency: u64)

  /** The `WallClock` base: the two emulated frequencies and `is_native`, as
      given to its constructor. */
  datatype WallClock = WallClock(
    emulatedCpuFrequency: u64,
    emulatedClockFrequency: u64,
    isNative: bool,
    variant: Variant)
  {
    /** `IsNative()`: whether the clock reads the host CPU's hardware counter. */
    function IsNative(): (b: bool)
      ensures b == isNative
    {
      isNative
    }
  }

  /** `IsNative()` answers the flag the clock was constructed with. */
  lemma IsNativeIsConstructorFlag(cpu: u64, clock: u64, isNative: bool, v: Variant)
    ensures WallClock(cpu, clock, isNative, v).IsNative() == isNative
  {
  }

  /** `StandardWallClock(emulated_cpu_frequency, emulated_clock_frequency)`:
      not native, the frequencies as given, started at `now`. */
  function NewStandardWallClock(cpu: u64, clock: u64, now: TimePoint): (c: WallClock)
    ensures !c.IsNative() && c.variant.Standard?
    ensures c.emulatedCpuFrequency == cpu && c.emulatedClockFrequency == clock
    ensures c.variant.startTime == now
  {
    WallClock(cpu, clock, false, Standard(now))
  }

  /** `X64::NativeClock(emulated_cpu_frequency, emulated_clock_frequency,
      rtsc_frequency)`: a clock over the hardware counter. */
  function NewNativeClock(cpu: u64, clock: u64, rtscFrequency: u64): (c: WallClock)
    ensures c.IsNative() && c.variant.Native?
    ensures c.emulatedCpuFrequency == cpu && c.emulatedClockFrequency == clock
    ensures c.variant.rtscFrequency == rtscFrequency
  {
    WallClock(cpu, clock, true, Native(rtscFrequency))
  }

  // ---------------------------------------------------------------------
  // StandardWallClock readings

  /** A standard clock read at `now`, no earlier than its start (the steady
      clock never runs backwards). */
  predicate ReadableAt(c: WallClock, now: TimePoint) {
    c.variant.Standard? && c.variant.startTime <= now
  }

  /** `GetTimeNS`: nanoseconds elapsed since construction. */
  function GetTimeNS(c: WallClock, now: TimePoint): (ns: TimePoint)
    requires ReadableAt(c, now)
    ensures c.variant.startTime + ns == now
  {
    now - c.variant.startTime
  }

  /** `GetTimeUS`: the elapsed time truncated to whole microseconds. */
  function GetTimeUS(c: WallClock, now: TimePoint): (us: nat)
    requires ReadableAt(c, now)
    ensures us * 1_000 <= GetTimeNS(c, now) < (us + 1) * 1_000
  {
    GetTimeNS(c, now) / 1_000
  }

  /** `GetTimeMS`: the elapsed time truncated to whole milliseconds. */
  function GetTimeMS(c: WallClock, now: TimePoint): (ms: nat)
    requires ReadableAt(c, now)
    ensures ms * 1_000_000 <= GetTimeNS(c, now) < (ms + 1) * 1_000_000
  {
    GetTimeNS(c, now) / 1_000_000
  }

  /** The three readings agree: milliseconds are microseconds truncated once more. */
  lemma TimeUnitsAgree(c: WallClock, now: TimePoint)
    requires ReadableAt(c, now)
    ensures GetTimeMS(c, now) == GetTimeUS(c, now) / 1_000
    ensures GetTimeUS(c, now) == GetTimeNS(c, now) / 1_000
  {
    var ns, us, ms := GetTimeNS(c, now), GetTimeUS(c, now), GetTimeMS(c, now);
    var q := us / 1_000;
    assert q * 1_000 <= us < (q + 1) * 1_000;
    assert q * 1_000_000 <= ns < (q + 1) * 1_000_000;
    UniqueQuotient(ns, 1_000_000, q, ms);
  }

  /** The whole quotient is the only `q` with `q * d <= n < (q + 1) * d`. */
  lemma UniqueQuotient(n: int, d: int, q1: int, q2: int)
    requires d > 0
    requires q1 * d <= n < (q1 + 1) * d
    requires q2 * d <= n < (q2 + 1) * d
    ensures q1 == q2
  {
    if q1 < q2 {
      MulMonotone(q1 + 1, q2, d);
    } else if q2 < q1 {
      MulMonotone(q2 + 1, q1, d);
    }
  }

  lemma MulMonotone(a: int, b: int, d: int)
    requires a <= b && d >= 0
    ensures a * d <= b * d
  {
    assert b * d - a * d == (b - a) * d;
  }

  /** Successive readings never decrease, in every unit. */
  lemma ReadingsMonotone(c: WallClock, now1: TimePoint, now2: TimePoint)
    requires ReadableAt(c, now1) && now1 <= now2
    ensures ReadableAt(c, now2)
    ensures GetTimeNS(c, now1) <= GetTimeNS(c, now2)
    ensures GetTimeUS(c, now1) <= GetTimeUS(c, now2)
    ensures GetTimeMS(c, now1) <= GetTimeMS(c, now2)
  {
  }

  // ---------------------------------------------------------------------
  // Cycle conversions through a 128-bit intermediate

  /** `Multiply64Into128`: the full product of two 64-bit values, which
      always fits in 128 bits. */
  function Multiply64Into128(a: u64, b: u64): (r: u128)
    ensures r == a * b
  {
    ProductFits(a, b);
    a * b
  }

  lemma ProductFits(a: u64, b: u64)
    ensures a * b < U128_MODULUS
  {
    var m: int := U64_MODULUS - 1;
    MulMonotone(a, m, b);
    MulMonotone(b, m, m);
    assert b * m == m * b;
    assert m * m < U128_MODULUS;
  }

  /** `Divide128On32(dividend, divisor)`: the quotient, as a 64-bit value,
      and the remainder. When the quotient fits in 64 bits the pair is the
      exact division of `dividend` by `divisor`. */
  function Divide128On32(dividend: u128, divisor: u32): (r: (u64, u64))
    requires divisor > 0
    ensures r.1 < divisor
    ensures dividend < U64_MODULUS * divisor ==> r.0 * divisor + r.1 == dividend
  {
    QuotientBelow(dividend, divisor, U64_MODULUS);
    ((dividend / divisor) % U64_MODULUS, dividend % divisor)
  }

  /** A dividend below `k * d` has a quotient below `k`. */
  lemma QuotientBelow(n: nat, d: int, k: int)
    requires d > 0
    ensures n < k * d ==> n / d < k
  {
    if n < k * d && n / d >= k {
      MulMonotone(k, n / d, d);
    }
  }

  /** The conversion both cycle readings share: `ns * frequency / 10^9`,
      multiplied in 128 bits, divided, and the quotient taken. */
  function CyclesAt(ns: TimePoint, frequency: u64): (cycles: u64)
    ensures ns * frequency < U64_MODULUS * NS_PER_SECOND ==>
      cycles * NS_PER_SECOND <= ns * frequency < (cycles + 1) * NS_PER_SECOND
  {
    Divide128On32(Multiply64Into128(ns, frequency), NS_PER_SECOND).0
  }

  /** `GetClockCycles`: emulated-clock cycles elapsed, the floor of
      `ns * emulated_clock_frequency / 10^9` whenever that fits in 64 bits. */
  function GetClockCycles(c: WallClock, now: TimePoint): (cycles: u64)
    requires ReadableAt(c, now)
    ensures GetTimeNS(c, now) * c.emulatedClockFrequency < U64_MODULUS * NS_PER_SECOND ==>
      cycles * NS_PER_SECOND <= GetTimeNS(c, now) * c.emulatedClockFrequency < (cycles + 1) * NS_PER_SECOND
  {
    CyclesAt(GetTimeNS(c, now), c.emulatedClockFrequency)
  }

  /** `GetCPUCycles`: emulated CPU cycles elapsed, the floor of
      `ns * emulated_cpu_frequency / 10^9` whenever that fits in 64 bits. */
  function GetCPUCycles(c: WallClock, now: TimePoint): (cycles: u64)
    requires ReadableAt(c, now)
    ensures GetTimeNS(c, now) * c.emulatedCpuFrequency < U64_MODULUS * NS_PER_SECOND ==>
      cycles * NS_PER_SECOND <= GetTimeNS(c, now) * c.emulatedCpuFrequency < (cycles + 1) * NS_PER_SECOND
  {
    CyclesAt(GetTimeNS(c, now), c.emulatedCpuFrequency)
  }

  /** The conversion is monotone in the elapsed time while the later
      quotient fits in 64 bits. */
  lemma CyclesAtMonotone(ns1: TimePoint, ns2: TimePoint, frequency: u64)
    requires ns1 <= ns2
    requires ns2 * frequency < U64_MODULUS * NS_PER_SECOND
    ensures CyclesAt(ns1, frequency) <= CyclesAt(ns2, frequency)
  {
    MulMonotone(ns1, ns2, frequency);
  }

  /** Both cycle readings never decrease between two readings of one clock
      while the later one fits in 64 bits. */
  lemma CyclesMonotone(c: WallClock, now1: TimePoint, now2: TimePoint)
    requires ReadableAt(c, now1) && now1 <= now2
    ensures ReadableAt(c, now2)
    ensures GetTimeNS(c, now2) * c.emulatedClockFrequency < U64_MODULUS * NS_PER_SECOND ==>
      GetClockCycles(c, now1) <= GetClockCycles(c, now2)
    ensures GetTimeNS(c, now2) * c.emulatedCpuFrequency < U64_MODULUS * NS_PER_SECOND ==>
      GetCPUCycles(c, now1) <= GetCPUCycles(c, now2)
  {
    var ns1, ns2 := GetTimeNS(c, now1), GetTimeNS(c, now2);
    if ns2 * c.emulatedClockFrequency < U64_MODULUS * NS_PER_SECOND {
      CyclesAtMonotone(ns1, ns2, c.emulatedClockFrequency);
    }
    if ns2 * c.emulatedCpuFrequency < U64_MODULUS * NS_PER_SECOND {
      CyclesAtMonotone(ns1, ns2, c.emulatedCpuFrequency);
    }
  }

  /** With a frequency below 2^32 (what the factory accepts) the quotient
      fits in 64 bits for every elapsed time below 4 * 10^18 ns, more than
      126 years. */
  lemma QuotientFitsForU32Frequency(ns: TimePoint, frequency: u64)
    requires frequency < U32_MODULUS && ns < 4_000_000_000_000_000_000
    ensures ns * frequency < U64_MODULUS * NS_PER_SECOND
  {
    MulMonotone(frequency, U32_MODULUS, ns);
    MulMonotone(ns, 4_000_000_000_000_000_000, U32_MODULUS);
  }

  /** Frequencies up to 10^10 and elapsed times up to 10^13 ns convert
      exactly. */
  lemma QuotientFitsForLargeFrequency(ns: TimePoint, frequency: u64)
    requires frequency <= 10_000_000_000 && ns <= 10_000_000_000_000
    ensures ns * frequency < U64_MODULUS * NS_PER_SECOND
  {
    MulMonotone(frequency, 10_000_000_000, ns);
    MulMonotone(ns, 10_000_000_000_000, 10_000_000_000);
  }

  // ---------------------------------------------------------------------
  // CreateBestMatchingClock

  /** The capability probe's answers that the factory uses: whether the
      time-stamp counter is invariant, and its nominal frequency in MHz
      (0 when unknown). */
  datatype CpuCaps = CpuCaps(invariantTsc: bool, baseFrequency: u32)

  /** The counter frequency the x86-64 factory settles on, given what the
      estimator would return: the nominal frequency in Hz when known, else
      the estimate, and 0 (no usable counter) when the counter varies. */
  function RtscFrequency(caps: CpuCaps, estimated: u64): (f: u64)
    ensures caps.invariantTsc && caps.baseFrequency != 0 ==> f == caps.baseFrequency * 1_000_000
    ensures caps.invariantTsc && caps.baseFrequency == 0 ==> f == estimated
    ensures f == 0 <==> !caps.invariantTsc || (caps.baseFrequency == 0 && estimated == 0)
  {
    if caps.invariantTsc then
      var fromBase: u64 := if caps.baseFrequency != 0 then caps.baseFrequency * 1_000_000 else 0;
      if fromBase == 0 then estimated else fromBase
    else
      0
  }

  /** `CreateBestMatchingClock` on x86-64: a `NativeClock` over the chosen
      counter frequency, or a `StandardWallClock` when that frequency is 0. */
  function CreateBestMatchingClock(cpu: u32, clock: u32, caps: CpuCaps, estimated: u64, now: TimePoint): (c: WallClock)
    ensures c.emulatedCpuFrequency == cpu && c.emulatedClockFrequency == clock
    ensures c.emulatedCpuFrequency < U32_MODULUS && c.emulatedClockFrequency < U32_MODULUS
    ensures c.IsNative() <==> c.variant.Native?
    ensures c.variant.Standard? <==> !caps.invariantTsc || (caps.baseFrequency == 0 && estimated == 0)
    ensures c.variant.Standard? ==> c.variant.startTime == now
    ensures c.variant.Native? && caps.baseFrequency != 0 ==>
      c.variant.rtscFrequency == caps.baseFrequency * 1_000_000
    ensures c.variant.Native? && caps.baseFrequency == 0 ==> c.variant.rtscFrequency == estimated
  {
    var rtscFrequency := RtscFrequency(caps, estimated);
    if rtscFrequency == 0 then NewStandardWallClock(cpu, clock, now)
    else NewNativeClock(cpu, clock, rtscFrequency)
  }

  /** When the counter is not invariant, or its nominal frequency is known,
      the estimate plays no part in the result. */
  lemma EstimatorNotConsulted(cpu: u32, clock: u32, caps: CpuCaps, e1: u64, e2: u64, now: TimePoint)
    requires !caps.invariantTsc || caps.baseFrequency != 0
    ensures CreateBestMatchingClock(cpu, clock, caps, e1, now) == CreateBestMatchingClock(cpu, clock, caps, e2, now)
  {
  }

  /** `CreateBestMatchingClock` on every other architecture. */
  function CreateBestMatchingClockPortable(cpu: u32, clock: u32, now: TimePoint): (c: WallClock)
    ensures !c.IsNative() && c.variant.Standard? && c.variant.startTime == now
    ensures c.emulatedCpuFrequency == cpu && c.emulatedClockFrequency == clock
  {
    NewStandardWallClock(cpu, clock, now)
  }

  /** A standard clock the factory built converts exactly, both cycle
      readings being the floor of the real quotient, for elapsed times below
      4 * 10^18 ns. */
  lemma FactoryClockConvertsExactly(c: WallClock, now: TimePoint)
    requires c.emulatedCpuFrequency < U32_MODULUS && c.emulatedClockFrequency < U32_MODULUS
    requires ReadableAt(c, now) && GetTimeNS(c, now) < 4_000_000_000_000_000_000
    ensures var ns := GetTimeNS(c, now);
      && GetClockCycles(c, now) == ns * c.emulatedClockFrequency / NS_PER_SECOND
      && GetCPUCycles(c, now) == ns * c.emulatedCpuFrequency / NS_PER_SECOND
  {
    var ns := GetTimeNS(c, now);
    QuotientFitsForU32Frequency(ns, c.emulatedClockFrequency);
    QuotientFitsForU32Frequency(ns, c.emulatedCpuFrequency);
    var cc := GetClockCycles(c, now);
    UniqueQuotient(ns * c.emulatedClockFrequency, NS_PER_SECOND, cc, ns * c.emulatedClockFrequency / NS_PER_SECOND);
    var cp := GetCPUCycles(c, now);
    UniqueQuotient(ns * c.emulatedCpuFrequency, NS_PER_SECOND, cp, ns * c.emulatedCpuFrequency / NS_PER_SECOND);
  }
}
