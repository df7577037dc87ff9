/** How milliseconds become ticks of the HPET main counter. */
module Hpet {
  import opened Machine

  /** The counter period in femtoseconds: the upper half of the capability
      register (IA-PC HPET Specification 1.0a, section 2.3.4). */
  function CounterClkPeriod(capReg: nat): (p: nat)
    requires capReg < U64
    ensures p < U32 && p * U32 <= capReg < (p + 1) * U32
  {
    capReg / 0x1_0000_0000
  }

  /** The period the kernel keeps, in whole nanoseconds. */
  function ClkPeriodNs(periodFs: nat): nat {
    periodFs / 1_000_000
  }

  /** The comparator value for `ms` milliseconds from `counter`, in 64-bit
      arithmetic. */
  function MsToCompar(counter: nat, ms: nat, periodNs: nat): (value: nat)
    requires counter < U64 && periodNs > 0
    ensures value < U64
  {
    (counter + ms * 1_000_000 % U64 / periodNs) % U64
  }

  lemma QuotientBounds(m: nat, d: nat)
    requires d > 0
    ensures m / d * d <= m < m / d * d + d && m / d <= m
  {
    var q := m / d;
    assert q * d + m % d == m;
    MulMono(1, d, q);
  }

  lemma SmallMod(x: nat)
    requires x < U64
    ensures x % U64 == x
  {
  }

  /** The tick count is the quotient of the nanoseconds by the period. */
  lemma TickCount(counter: nat, ms: nat, ns: nat)
    requires counter < U64 && ns > 0 && ms * 1_000_000 < U64
    ensures MsToCompar(counter, ms, ns) == (counter + ms * 1_000_000 / ns) % U64
    ensures MsToCompar(0, ms, ns) == ms * 1_000_000 / ns
  {
    var m := ms * 1_000_000;
    SmallMod(m);
    QuotientBounds(m, ns);
    SmallMod(m / ns);
  }

  /** Times too long for 64 bits lose the whole multiples of 2^64 nanoseconds. */
  lemma TooLong(ms: nat, ns: nat, k: nat, m: nat)
    requires ns > 0 && ms * 1_000_000 == k * U64 + m && m < U64
    ensures MsToCompar(0, ms, ns) == m / ns
  {
    ModUnique(ms * 1_000_000, U64, k, m);
    QuotientBounds(m, ns);
    SmallMod(m / ns);
  }

  lemma NotEarly(t: nat, ns: nat, fs: nat, m: nat)
    requires m < t * ns + ns && ns * 1_000_000 <= fs
    ensures m * 1_000_000 < t * fs + fs
  {
  }

  lemma NotLate(t: nat, ns: nat, fs: nat, m: nat)
    requires t * ns <= m
    ensures t * fs * ns <= m * fs
  {
  }

  /** With a hardware period of `fs` femtoseconds, the programmed number of ticks
      is never more than one tick short of `ms` milliseconds, and overshoots by
      a factor of at most fs / (ns * 10^6), where `ns` is the truncated period. */
  lemma TickBounds(fs: nat, ms: nat)
    requires ClkPeriodNs(fs) > 0 && ms * 1_000_000 < U64
    ensures var ns, t := ClkPeriodNs(fs), MsToCompar(0, ms, ClkPeriodNs(fs));
            && ms * 1_000_000 * 1_000_000 < t * fs + fs
            && t * fs * ns <= ms * 1_000_000 * fs
  {
    var ns, m := ClkPeriodNs(fs), ms * 1_000_000;
    TickCount(0, ms, ns);
    QuotientBounds(m, ns);
    QuotientBounds(fs, 1_000_000);
    NotEarly(m / ns, ns, fs, m);
    NotLate(m / ns, ns, fs, m);
  }

  lemma Strictly(m: nat, fs: nat, ns: nat)
    requires m > 0 && fs < ns * 1_000_000 + 1_000_000
    ensures m * fs < m * 1_000_000 * (ns + 1)
  {
    MulMono(fs + 1, ns * 1_000_000 + 1_000_000, m);
    assert (ns * 1_000_000 + 1_000_000) * m == m * 1_000_000 * (ns + 1);
    assert (fs + 1) * m == m * fs + m;
  }

  /** Relative to the time asked for, the overshoot stays below 1 / ns, for any
      content of the capability register that the comparator accepts. */
  lemma OvershootBelow(capReg: nat, ms: nat)
    requires capReg < U64 && ClkPeriodNs(CounterClkPeriod(capReg)) > 0 && 0 < ms && ms * 1_000_000 < U64
    ensures var fs := CounterClkPeriod(capReg);
            var ns := ClkPeriodNs(fs);
            MsToCompar(0, ms, ns) * fs * ns < ms * 1_000_000 * 1_000_000 * (ns + 1)
  {
    var fs := CounterClkPeriod(capReg);
    TickBounds(fs, ms);
    QuotientBounds(fs, 1_000_000);
    Strictly(ms * 1_000_000, fs, ClkPeriodNs(fs));
  }

  /** A one-shot comparator fires after the same number of ticks wherever the
      running counter stands, also when the sum wraps. */
  lemma OneShotDistance(counter: nat, ms: nat, periodNs: nat)
    requires counter < U64 && periodNs > 0 && ms * 1_000_000 < U64
    ensures Sub64(MsToCompar(counter, ms, periodNs), counter) == MsToCompar(0, ms, periodNs)
  {
    TickCount(counter, ms, periodNs);
    Distance(counter, MsToCompar(0, ms, periodNs));
  }

  lemma Distance(counter: nat, t: nat)
    requires counter < U64 && t < U64
    ensures Sub64((counter + t) % U64, counter) == t
  {
    if counter + t < U64 {
      SmallMod(counter + t);
    } else {
      ModUnique(counter + t, U64, 1, counter + t - U64);
    }
  }
}
