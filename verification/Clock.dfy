/** The sleep-inclusive clock of src/contract.rs.

    `Instant::now()` stops while the host sleeps. `RealClock::now` adds back the
    accumulated sleep, read as the difference of two counters that are sampled one
    after the other. A host is its uptime counter: `up(w)` is the awake time that
    has passed when `w` has passed since boot, so `w - up(w)` is the accumulated
    sleep; a sleep-inclusive counter reads `w` itself. */
module Clock {
  import opened Wrappers

  const U64_MAX: nat := 0xFFFF_FFFF_FFFF_FFFF
  const U32_MAX: nat := 0xFFFF_FFFF
  const U128_MAX: nat := 0xFFFF_FFFF_FFFF_FFFF_FFFF_FFFF_FFFF_FFFF

  type u32 = x: nat | x <= U32_MAX
  type u64 = x: nat | x <= U64_MAX

  datatype Timebase = Timebase(numer: u32, denom: u32)

  function SaturatingSub(a: nat, b: nat): nat {
    if a >= b then a - b else 0
  }

  /** `ticks_to_duration`: the product is taken in 128 bits, divided, and squeezed
      into the 64 bits of a nanosecond count. */
  function TicksToNanos(ticks: u64, timebase: Timebase): u64 {
    if timebase.denom == 0 then 0
    else
      var nanos := ticks * timebase.numer / timebase.denom;
      if nanos <= U64_MAX then nanos else U64_MAX
  }

  /** The macOS arm of `slept_since_boot`; an unreadable timebase adds nothing back. */
  function MachSlept(continuous: u64, absolute: u64, timebase: Option<Timebase>): u64 {
    match timebase
    case None => 0
    case Some(ratio) => TicksToNanos(SaturatingSub(continuous, absolute), ratio)
  }

  /** The Linux arm of `slept_since_boot`; an unreadable clock adds nothing back. */
  function LinuxSlept(boottime: Option<nat>, monotonic: Option<nat>): nat {
    match (boottime, monotonic)
    case (Some(b), Some(m)) => SaturatingSub(b, m)
    case _ => 0
  }

  /** `RealClock::now`, where `latest` is the last instant the platform can represent. */
  function Now(uptime: nat, slept: nat, latest: nat): nat {
    if uptime + slept <= latest then uptime + slept else uptime
  }

  /** A counter that cannot be read, and an instant that cannot be represented, leave the bare
      uptime reading: the clock degrades and never fails. */
  lemma DegradesToUptime(uptime: nat, counter: Option<nat>, continuous: u64, absolute: u64, slept: nat, latest: nat)
    requires uptime <= latest
    ensures Now(uptime, LinuxSlept(None, counter), latest) == uptime
    ensures Now(uptime, LinuxSlept(counter, None), latest) == uptime
    ensures Now(uptime, MachSlept(continuous, absolute, None), latest) == uptime
    ensures uptime + slept > latest ==> Now(uptime, slept, latest) == uptime
    ensures uptime + slept <= latest ==> Now(uptime, slept, latest) == uptime + slept
  {
  }

  // --- hosts ---

  /** Neither awake time nor sleep ever runs backwards. */
  ghost predicate IsHost(up: nat -> nat) {
    && (forall w: nat :: up(w) <= w)
    && (forall w: nat, v: nat :: w <= v ==> up(w) <= up(v) && w - up(w) <= v - up(v))
  }

  ghost function SleptAt(up: nat -> nat, w: nat): nat
    requires IsHost(up)
  {
    w - up(w)
  }

  ghost function AwakeBetween(up: nat -> nat, w: nat, v: nat): nat
    requires IsHost(up) && w <= v
  {
    up(v) - up(w)
  }

  // --- the order of the two reads ---

  /** Sleep-inclusive first: the offset is the sleep at the first read less the awake
      time between the reads, floored at zero, so it never over-counts. The other
      order over-counts by exactly that awake time. */
  lemma ReadOrder(up: nat -> nat, first: nat, second: nat)
    requires IsHost(up) && first <= second
    ensures LinuxSlept(Some(first), Some(up(second)))
         == SaturatingSub(SleptAt(up, first), AwakeBetween(up, first, second))
    ensures LinuxSlept(Some(second), Some(up(first)))
         == SleptAt(up, second) + AwakeBetween(up, first, second)
  {
    assert up(first) <= up(second);
  }

  /** On a host that has not slept by the first read, nothing is added, whatever the skew. */
  lemma NeverSleptAddsNothing(up: nat -> nat, first: nat, second: nat)
    requires IsHost(up) && first <= second && SleptAt(up, first) == 0
    ensures LinuxSlept(Some(first), Some(up(second))) == 0
    ensures forall uptime: nat, latest: nat ::
              uptime <= latest ==> Now(uptime, LinuxSlept(Some(first), Some(up(second))), latest) == uptime
  {
    ReadOrder(up, first, second);
  }

  /** The three instants one reading of the clock samples, in order: the uptime
      clock, the sleep-inclusive counter, the uptime counter again. */
  datatype Reading = Reading(uptimeAt: nat, inclusiveAt: nat, exclusiveAt: nat)

  ghost predicate InOrder(r: Reading) {
    r.uptimeAt <= r.inclusiveAt <= r.exclusiveAt
  }

  ghost function ReadNow(up: nat -> nat, r: Reading, latest: nat): nat {
    Now(up(r.uptimeAt), LinuxSlept(Some(r.inclusiveAt), Some(up(r.exclusiveAt))), latest)
  }

  ghost function Skew(up: nat -> nat, r: Reading): nat
    requires IsHost(up) && InOrder(r)
  {
    AwakeBetween(up, r.uptimeAt, r.exclusiveAt)
  }

  /** A reading is the boot-epoch time of its middle sample, short by at most the awake
      time the three samples took. */
  lemma ReadingIsBootTime(up: nat -> nat, r: Reading, latest: nat)
    requires IsHost(up) && InOrder(r) && r.inclusiveAt <= latest
    ensures r.inclusiveAt - Skew(up, r) <= ReadNow(up, r, latest) <= r.inclusiveAt
  {
    ReadOrder(up, r.inclusiveAt, r.exclusiveAt);
    assert up(r.uptimeAt) <= up(r.inclusiveAt) <= up(r.exclusiveAt);
  }

  /** The gap between two readings is the elapsed time, sleep included, within the skew
      of one reading on either side. */
  lemma GapIsElapsedTime(up: nat -> nat, a: Reading, b: Reading, latest: nat)
    requires IsHost(up) && InOrder(a) && InOrder(b)
    requires a.inclusiveAt <= b.inclusiveAt <= latest
    ensures var gap := ReadNow(up, b, latest) - ReadNow(up, a, latest);
            var elapsed := b.inclusiveAt - a.inclusiveAt;
            elapsed - Skew(up, b) <= gap <= elapsed + Skew(up, a)
  {
    ReadingIsBootTime(up, a, latest);
    ReadingIsBootTime(up, b, latest);
  }

  // --- mach ticks ---

  lemma MulMonotone(a: nat, b: nat, k: nat)
    requires a <= b
    ensures a * k <= b * k
  {
  }

  lemma Distribute(a: nat, b: nat, k: nat)
    ensures (a + b) * k == a * k + b * k
  {
  }

  /** Multiples stand in the order of their factors. */
  lemma FactorsInOrder(k: nat, m: nat, n: nat, d: nat)
    requires k * d <= n < m * d
    ensures k < m
  {
    if m <= k { MulMonotone(m, k, d); }
  }

  /** The quotient, with the multiples that it and the next number make. */
  lemma Quotient(n: nat, d: nat) returns (q: nat, next: nat)
    requires d > 0
    ensures q == n / d && next == q + 1 && q * d <= n < next * d
  {
    q, next := n / d, n / d + 1;
    Distribute(q, 1, d);
    assert n == q * d + n % d;
  }

  lemma DivMonotone(a: nat, b: nat, d: nat)
    requires a <= b && d > 0
    ensures a / d <= b / d
  {
    var q, _ := Quotient(a, d);
    var _, next := Quotient(b, d);
    FactorsInOrder(q, next, b, d);
  }

  /** The conversion is the exact ratio rounded down, or the largest count when that does
      not fit, and the intermediate product always fits 128 bits. */
  lemma TicksAreFloored(ticks: u64, timebase: Timebase)
    requires timebase.denom != 0
    ensures ticks * timebase.numer <= U128_MAX
    ensures var nanos := TicksToNanos(ticks, timebase);
            && nanos * timebase.denom <= ticks * timebase.numer
            && (nanos < U64_MAX ==> ticks * timebase.numer < (nanos + 1) * timebase.denom)
  {
    MulMonotone(ticks, U64_MAX, timebase.numer);
    MulMonotone(timebase.numer, U32_MAX, U64_MAX);
    var product := ticks * timebase.numer;
    var exact := product / timebase.denom;
    assert product == exact * timebase.denom + product % timebase.denom;
    assert (exact + 1) * timebase.denom == exact * timebase.denom + timebase.denom;
    if exact > U64_MAX { MulMonotone(U64_MAX, exact, timebase.denom); }
  }

  lemma TicksAreMonotone(a: u64, b: u64, timebase: Timebase)
    requires a <= b
    ensures TicksToNanos(a, timebase) <= TicksToNanos(b, timebase)
  {
    if timebase.denom != 0 {
      MulMonotone(a, b, timebase.numer);
      DivMonotone(a * timebase.numer, b * timebase.numer, timebase.denom);
    }
  }

  /** Dividing loses less than one when a sum is taken apart. */
  lemma DivOfSum(a: nat, b: nat, d: nat)
    requires d > 0
    ensures (a + b) / d <= a / d + b / d + 1
  {
    var _, nextA := Quotient(a, d);
    var _, nextB := Quotient(b, d);
    var whole, _ := Quotient(a + b, d);
    Distribute(nextA, nextB, d);
    FactorsInOrder(whole, nextA + nextB, a + b, d);
  }

  /** Converting a sum loses at most one nanosecond, saturated or not. */
  lemma TicksOfSum(a: u64, b: u64, sum: u64, timebase: Timebase)
    requires sum <= a + b
    ensures TicksToNanos(sum, timebase) <= TicksToNanos(a, timebase) + TicksToNanos(b, timebase) + 1
  {
    if timebase.denom != 0 {
      MulMonotone(sum, a + b, timebase.numer);
      DivMonotone(sum * timebase.numer, (a + b) * timebase.numer, timebase.denom);
      assert (a + b) * timebase.numer == a * timebase.numer + b * timebase.numer;
      DivOfSum(a * timebase.numer, b * timebase.numer, timebase.denom);
    }
  }

  /** The mach arm inherits both bounds: what it adds back never exceeds the conversion of the
      sleep at the first read, falls short of it by at most the conversion of the awake ticks
      between the reads and one nanosecond of rounding, and is nothing on a host that has not
      slept. */
  lemma MachNeverOverCounts(up: nat -> nat, first: u64, second: nat, timebase: Timebase)
    requires IsHost(up) && first <= second && up(second) <= U64_MAX
    ensures MachSlept(first, up(second), Some(timebase)) <= TicksToNanos(SleptAt(up, first), timebase)
    ensures AwakeBetween(up, first, second) <= U64_MAX
    ensures TicksToNanos(SleptAt(up, first), timebase)
         <= MachSlept(first, up(second), Some(timebase)) + TicksToNanos(AwakeBetween(up, first, second), timebase) + 1
    ensures SleptAt(up, first) == 0 ==> MachSlept(first, up(second), Some(timebase)) == 0
  {
    ReadOrder(up, first, second);
    var offset := SaturatingSub(first, up(second));
    TicksAreMonotone(offset, SleptAt(up, first), timebase);
    TicksOfSum(offset, AwakeBetween(up, first, second), SleptAt(up, first), timebase);
    if SleptAt(up, first) == 0 && timebase.denom != 0 {
      assert 0 * timebase.numer / timebase.denom == 0;
    }
  }

  /** Dividing a sum gains nothing on dividing its parts. */
  lemma DivOfParts(a: nat, b: nat, d: nat)
    requires d > 0
    ensures a / d + b / d <= (a + b) / d
  {
    var q, _ := Quotient(a, d);
    var r, _ := Quotient(b, d);
    var _, next := Quotient(a + b, d);
    Distribute(q, r, d);
    FactorsInOrder(q + r, next, a + b, d);
  }

  lemma TicksOfParts(a: u64, b: u64, sum: u64, timebase: Timebase)
    requires a + b <= sum && TicksToNanos(sum, timebase) < U64_MAX
    ensures TicksToNanos(a, timebase) + TicksToNanos(b, timebase) <= TicksToNanos(sum, timebase)
  {
    if timebase.denom != 0 {
      DivOfParts(a * timebase.numer, b * timebase.numer, timebase.denom);
      assert (a + b) * timebase.numer == a * timebase.numer + b * timebase.numer;
      MulMonotone(a + b, sum, timebase.numer);
      DivMonotone((a + b) * timebase.numer, sum * timebase.numer, timebase.denom);
    }
  }

  /** What a reading gives on macOS, where the uptime clock counts the same ticks. */
  ghost function MachReadNow(up: nat -> nat, r: Reading, timebase: Timebase, latest: nat): nat
    requires IsHost(up) && InOrder(r) && r.exclusiveAt <= U64_MAX
  {
    Now(TicksToNanos(up(r.uptimeAt), timebase), MachSlept(r.inclusiveAt, up(r.exclusiveAt), Some(timebase)), latest)
  }

  /** A reading is the boot-epoch time of its middle sample here too, short by at most the
      awake time the three samples took and two nanoseconds of rounding. */
  lemma MachReadingIsBootTime(up: nat -> nat, r: Reading, timebase: Timebase, latest: nat)
    requires IsHost(up) && InOrder(r) && r.exclusiveAt <= U64_MAX
    requires TicksToNanos(r.inclusiveAt, timebase) < U64_MAX && TicksToNanos(r.inclusiveAt, timebase) <= latest
    ensures TicksToNanos(r.inclusiveAt, timebase) - TicksToNanos(Skew(up, r), timebase) - 2
         <= MachReadNow(up, r, timebase, latest)
         <= TicksToNanos(r.inclusiveAt, timebase)
  {
    var uptime, offset := up(r.uptimeAt), SaturatingSub(r.inclusiveAt, up(r.exclusiveAt));
    assert uptime <= up(r.inclusiveAt) <= up(r.exclusiveAt);
    TicksOfParts(uptime, offset, r.inclusiveAt, timebase);
    TicksOfSum(uptime, offset, uptime + offset, timebase);
    TicksOfSum(uptime + offset, Skew(up, r), r.inclusiveAt, timebase);
  }

  /** So the gap between two readings is the elapsed time, sleep included, within the skew of
      one reading on either side and three nanoseconds of rounding. */
  lemma MachGapIsElapsedTime(up: nat -> nat, a: Reading, b: Reading, timebase: Timebase, latest: nat)
    requires IsHost(up) && InOrder(a) && InOrder(b)
    requires a.inclusiveAt <= b.inclusiveAt && a.exclusiveAt <= U64_MAX && b.exclusiveAt <= U64_MAX
    requires TicksToNanos(b.inclusiveAt, timebase) < U64_MAX && TicksToNanos(b.inclusiveAt, timebase) <= latest
    ensures var gap := MachReadNow(up, b, timebase, latest) - MachReadNow(up, a, timebase, latest);
            var elapsed := TicksToNanos(b.inclusiveAt - a.inclusiveAt, timebase);
            && elapsed - TicksToNanos(Skew(up, b), timebase) - 2 <= gap
            && gap <= elapsed + TicksToNanos(Skew(up, a), timebase) + 3
  {
    var elapsed := b.inclusiveAt - a.inclusiveAt;
    TicksAreMonotone(a.inclusiveAt, b.inclusiveAt, timebase);
    MachReadingIsBootTime(up, a, timebase, latest);
    MachReadingIsBootTime(up, b, timebase, latest);
    TicksOfParts(a.inclusiveAt, elapsed, b.inclusiveAt, timebase);
    TicksOfSum(a.inclusiveAt, elapsed, b.inclusiveAt, timebase);
  }
}
