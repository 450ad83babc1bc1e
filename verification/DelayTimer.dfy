/** Busy-waiting on a wrapping counter (`drivers/delay_timer`). */
module DelayTimer {
  import opened Words
  import opened Bits

  const MHZ_TICKS_PER_SEC: nat := 1_000_000
  const UINT32_MAX: nat := TWO_32 - 1
  const UINT64_MAX: nat := TWO_64 - 1

  // ---- Clock ratio ------------------------------------------------------------

  /** `generic_delay_timer_init`: the loop keeps the ratio and removes every common
      factor of ten. A frequency of zero leaves a zero divider, which `timer_init` refuses. */
  method ReduceRatio(frequency: Word32) returns (mult: Word32, div: Word32)
    ensures mult > 0 && mult * frequency == div * MHZ_TICKS_PER_SEC
    ensures !(mult % 10 == 0 && div % 10 == 0)
    ensures div == 0 <==> frequency == 0
  {
    mult, div := MHZ_TICKS_PER_SEC, frequency;
    while mult % 10 == 0 && div % 10 == 0
      invariant 0 < mult <= MHZ_TICKS_PER_SEC && 0 <= div <= frequency
      invariant mult * frequency == div * MHZ_TICKS_PER_SEC
      decreases mult
    {
      TenthKeepsRatio(mult, div, frequency);
      mult, div := mult / 10, div / 10;
    }
  }

  lemma TenthKeepsRatio(mult: nat, div: nat, frequency: nat)
    requires mult % 10 == 0 && div % 10 == 0 && mult * frequency == div * MHZ_TICKS_PER_SEC
    ensures mult / 10 * frequency == div / 10 * MHZ_TICKS_PER_SEC
  {
    var m, d := mult / 10, div / 10;
    assert mult * frequency == 10 * (m * frequency);
  }

  // ---- The delay ----------------------------------------------------------------

  /** `generic_delay_get_timer_value`: the counter seen as a 32-bit down counter. */
  function TimerValue(count: nat): Word32 {
    TWO_32 - 1 - count % TWO_32
  }

  /** `a - b` in `uint32_t`. */
  function Sub32(a: Word32, b: Word32): Word32 {
    if a >= b then a - b else a - b + TWO_32
  }

  /** The subtraction of two values of the down counter is the time passed, modulo
      the counter's width, wherever the counter started. */
  lemma DeltaIsElapsed(start: nat, now: nat)
    requires start <= now
    ensures Sub32(TimerValue(start), TimerValue(now)) == (now - start) % TWO_32
  {
    var a, b := start % TWO_32, now % TWO_32;
    var q := now / TWO_32 - start / TWO_32;
    assert now - start == TWO_32 * q + (b - a);
    if b >= a {
      assert q >= 0;
      ModUnique(now - start, TWO_32, q, b - a);
    } else {
      assert q >= 1;
      ModUnique(now - start, TWO_32, q - 1, b - a + TWO_32);
    }
  }

  function DivRoundUp(x: nat, y: nat): nat
    requires y > 0
  {
    (x + y - 1) / y
  }

  /** The number of ticks to wait for, with the extra one. */
  function TotalDelta(usec: nat, mult: nat, div: nat): nat
    requires mult > 0
  {
    DivRoundUp(usec * div, mult) + 1
  }

  // ---- Never too early --------------------------------------------------------

  lemma RoundUpAtLeast(x: nat, y: nat)
    requires y > 0
    ensures DivRoundUp(x, y) * y >= x
  {
    var n := x + y - 1;
    assert n == y * (n / y) + n % y;
  }

  /** The counter at time `t` (in microseconds) of a clock of `div / mult` ticks per microsecond. */
  ghost function TicksAt(t: real, mult: nat, div: nat): int
    requires mult > 0
  {
    (t * (div as real / mult as real)).Floor
  }

  lemma DivideOut(span: real, rate: real, least: real)
    requires rate > 0.0 && span * rate > least * rate
    ensures span > least
  {
  }

  /** Wherever within their ticks the two readings fall, a delay that returns has
      lasted longer than was asked for. */
  lemma NeverEarly(usec: nat, mult: nat, div: nat, t0: real, t1: real)
    requires mult > 0 && div > 0
    requires TicksAt(t1, mult, div) - TicksAt(t0, mult, div) >= TotalDelta(usec, mult, div)
    ensures t1 - t0 > usec as real
  {
    var rate := div as real / mult as real;
    var need := DivRoundUp(usec * div, mult);
    RoundUpAtLeast(usec * div, mult);
    ScaleDown(usec, mult, div, need);
    assert t1 * rate - t0 * rate > need as real;
    assert (t1 - t0) * rate == t1 * rate - t0 * rate;
    DivideOut(t1 - t0, rate, usec as real);
  }

  lemma ScaleDown(usec: nat, mult: nat, div: nat, need: nat)
    requires mult > 0 && div > 0 && need * mult >= usec * div
    ensures div as real / mult as real > 0.0
    ensures need as real >= usec as real * (div as real / mult as real)
  {
    var u, m, d, n := usec as real, mult as real, div as real, need as real;
    assert n * m == (need * mult) as real && u * d == (usec * div) as real;
    var rate := d / m;
    assert rate * m == d;
    assert n * m >= u * rate * m;
    DivideOutWeak(n, m, u * rate);
  }

  lemma DivideOutWeak(a: real, m: real, b: real)
    requires m > 0.0 && a * m >= b * m
    ensures a >= b
  {
  }

  /** Waiting for `n` ticks is enough, wherever within their ticks the readings fall. */
  ghost predicate Enough(usec: nat, mult: nat, div: nat, n: nat)
    requires mult > 0
  {
    forall t0: real, t1: real :: TicksAt(t1, mult, div) - TicksAt(t0, mult, div) >= n ==> t1 - t0 >= usec as real
  }

  lemma RoundUpAtMost(x: nat, y: nat)
    requires y > 0 && x > 0
    ensures DivRoundUp(x, y) > 0 && (DivRoundUp(x, y) - 1) * y < x
  {
    var n := x + y - 1;
    assert n == y * (n / y) + n % y;
    assert (n / y - 1) * y == n - n % y - y;
  }

  lemma ScaleUp(usec: nat, mult: nat, div: nat, need: nat)
    requires mult > 0 && div > 0 && need > 0 && (need - 1) * mult < usec * div
    ensures (need - 1) as real < usec as real * (div as real / mult as real)
  {
    var u, m, d, n := usec as real, mult as real, div as real, (need - 1) as real;
    assert n * m == ((need - 1) * mult) as real && u * d == (usec * div) as real;
    var rate := d / m;
    assert rate * m == d;
    assert n * m < u * rate * m;
    DivideOut(u * rate, m, n);
  }

  /** The counter `p` ticks after time zero. */
  lemma TimeOf(p: real, mult: nat, div: nat) returns (t: real)
    requires mult > 0 && div > 0
    ensures div as real / mult as real > 0.0
    ensures t * (div as real / mult as real) == p && TicksAt(t, mult, div) == p.Floor
  {
    var rate := div as real / mult as real;
    t := p / rate;
  }

  /** One tick fewer than `udelay` waits for can pass before the time is over. */
  lemma OneTickFewer(usec: nat, mult: nat, div: nat) returns (t0: real, t1: real)
    requires mult > 0 && div > 0 && usec > 0
    ensures TicksAt(t1, mult, div) - TicksAt(t0, mult, div) == TotalDelta(usec, mult, div) - 1
    ensures t1 - t0 < usec as real
  {
    var rate := div as real / mult as real;
    var need := DivRoundUp(usec * div, mult);
    RoundUpAtLeast(usec * div, mult);
    RoundUpAtMost(usec * div, mult);
    ScaleDown(usec, mult, div, need);
    ScaleUp(usec, mult, div, need);
    var p := (need as real - usec as real * rate + 1.0) / 2.0;
    assert 0.0 < p < 1.0;
    t0 := TimeOf(p, mult, div);
    t1 := TimeOf(need as real, mult, div);
    assert usec as real * rate - (t1 - t0) * rate == usec as real * rate - need as real + p > 0.0;
    DivideOut(usec as real, rate, t1 - t0);
  }

  /** `udelay` waits for the least number of ticks that is enough. */
  lemma DeltaIsLeast(usec: nat, mult: nat, div: nat, n: nat)
    requires mult > 0 && div > 0 && usec > 0
    ensures Enough(usec, mult, div, n) <==> n >= TotalDelta(usec, mult, div)
  {
    if n >= TotalDelta(usec, mult, div) {
      forall t0: real, t1: real | TicksAt(t1, mult, div) - TicksAt(t0, mult, div) >= n
        ensures t1 - t0 >= usec as real
      {
        NeverEarly(usec, mult, div, t0, t1);
      }
    } else {
      var t0, t1 := OneTickFewer(usec, mult, div);
    }
  }

  // ---- Never a whole turn late --------------------------------------------------

  /** The counter is read at least every `gap` ticks. */
  ghost predicate ReadEvery(counts: seq<nat>, gap: nat) {
    forall i :: 0 < i < |counts| ==> counts[i] <= counts[i - 1] + gap
  }

  /** The ticks since the first reading. */
  function Elapsed(counts: seq<nat>, i: nat): int
    requires i < |counts|
  {
    counts[i] as int - counts[0] as int
  }

  ghost predicate Monotone(counts: seq<nat>) {
    forall i, j :: 0 <= i < j < |counts| ==> counts[i] <= counts[j]
  }

  /** The loop is still waiting after the readings before `k`. */
  ghost predicate StillWaiting(counts: seq<nat>, total: nat, k: nat)
    requires k <= |counts|
  {
    forall i :: 0 < i < k ==> Elapsed(counts, i) % TWO_32 < total
  }

  /** A gap of `gap` ticks between readings is safe when `total + gap` stays within the
      counter: the loop leaves before the counter has come round to its start. The
      assertion in `udelay` makes a gap of 1000 safe. */
  lemma ExitsBeforeWrap(counts: seq<nat>, total: nat, gap: nat, k: nat)
    requires 0 < k < |counts| && total > 0 && total + gap <= TWO_32
    requires Monotone(counts) && ReadEvery(counts, gap) && StillWaiting(counts, total, k)
    ensures Elapsed(counts, k) < TWO_32
    ensures Elapsed(counts, k) % TWO_32 >= total <==> Elapsed(counts, k) >= total
    decreases k
  {
    if k > 1 {
      ExitsBeforeWrap(counts, total, gap, k - 1);
      assert Elapsed(counts, k - 1) % TWO_32 < total;
    }
    assert counts[k] <= counts[k - 1] + gap;
  }

  /** Whatever the readings, if they are at most `gap` ticks apart the loop leaves at the
      first for which enough ticks have passed. */
  ghost predicate Safe(total: nat, gap: nat) {
    forall counts, k :: Watched(counts, total, gap, k) ==> LeavesOnTime(counts, total, k)
  }

  /** Reading `k` of readings that keep to the gap is one that the loop comes to. */
  ghost predicate Watched(counts: seq<nat>, total: nat, gap: nat, k: nat) {
    0 < k < |counts| && Monotone(counts) && ReadEvery(counts, gap) && StillWaiting(counts, total, k)
  }

  ghost predicate LeavesOnTime(counts: seq<nat>, total: nat, k: nat)
    requires k < |counts|
  {
    Elapsed(counts, k) % TWO_32 >= total <==> Elapsed(counts, k) >= total
  }

  /** Readings at every tick up to the last that is not enough, and the next when the
      counter has just come round: the loop misses the end and waits a whole turn more. */
  lemma LongerGapMisses(total: nat, gap: nat) returns (counts: seq<nat>)
    requires 0 < total < TWO_32 && total + gap > TWO_32
    ensures Watched(counts, total, gap, total) && !LeavesOnTime(counts, total, total)
  {
    counts := seq(total, i requires 0 <= i < total => i) + [TWO_32];
    forall i | 0 < i < total ensures Elapsed(counts, i) % TWO_32 < total {
      assert Elapsed(counts, i) == i;
    }
    assert Elapsed(counts, total) == TWO_32;
  }

  /** Exactly how often the counter must be read. */
  lemma SafeIff(total: nat, gap: nat)
    requires 0 < total < TWO_32
    ensures Safe(total, gap) <==> total + gap <= TWO_32
  {
    if total + gap <= TWO_32 {
      forall counts, k | Watched(counts, total, gap, k) ensures LeavesOnTime(counts, total, k) {
        ExitsBeforeWrap(counts, total, gap, k);
      }
    } else {
      var counts := LongerGapMisses(total, gap);
    }
  }

  // ---- The delay itself -----------------------------------------------------------

  /** The readings were taken at these times (in microseconds), and never go back. */
  ghost predicate Clocked(counts: seq<nat>, times: seq<real>, mult: nat, div: nat)
    requires mult > 0
  {
    && |times| == |counts|
    && Monotone(counts)
    && forall i :: 0 <= i < |counts| ==> counts[i] == TicksAt(times[i], mult, div)
  }

  lemma WrappedAtMost(x: nat)
    ensures x % TWO_32 <= x
  {
  }

  /** A reading at which the wrapped difference is large enough comes after the time asked for. */
  lemma EnoughIsLate(usec: nat, mult: nat, div: nat, counts: seq<nat>, times: seq<real>, k: nat)
    requires mult > 0 && div > 0 && Clocked(counts, times, mult, div) && 0 < k < |counts|
    requires Elapsed(counts, k) % TWO_32 >= TotalDelta(usec, mult, div)
    ensures times[k] - times[0] > usec as real
  {
    assert counts[0] <= counts[k];
    WrappedAtMost(counts[k] - counts[0]);
    NeverEarly(usec, mult, div, times[0], times[k]);
  }

  /** Read often enough, the wrapped difference tells the time up to the first that is enough. */
  lemma OftenEnough(counts: seq<nat>, total: nat, n: nat)
    requires n <= |counts| && 0 < total < UINT32_MAX - 1000 && ReadEvery(counts, 1000)
    requires Monotone(counts) && (n > 0 ==> StillWaiting(counts, total, n - 1))
    ensures forall i :: 0 < i < n ==> Elapsed(counts, i) < TWO_32 && LeavesOnTime(counts, total, i)
  {
    forall i | 0 < i < n ensures Elapsed(counts, i) < TWO_32 && LeavesOnTime(counts, total, i) {
      ExitsBeforeWrap(counts, total, 1000, i);
    }
  }

  datatype Wait = Returned(at: nat) | Polling | Halted

  /** `udelay`, given the successive values of the system counter. The first is read on
      entry and each later one by one turn of the loop. When it returns, more than the time
      asked for has passed; and read at least every 1000 ticks, it returns at the first
      reading for which enough ticks have, before the counter has come round. */
  method Udelay(usec: Word32, mult: Word32, div: Word32, counts: seq<nat>, ghost times: seq<real>)
    returns (wait: Wait)
    requires counts != [] && (mult > 0 ==> Clocked(counts, times, mult, div))
    ensures wait.Halted? <==> mult == 0 || div == 0 || usec >= UINT64_MAX / div
                              || TotalDelta(usec, mult, div) >= UINT32_MAX - 1000
    ensures wait.Returned? ==> 0 < wait.at < |counts| && times[wait.at] - times[0] > usec as real
    ensures !wait.Halted? ==>
      && StillWaiting(counts, TotalDelta(usec, mult, div), if wait.Returned? then wait.at else |counts|)
      && (wait.Returned? ==> Elapsed(counts, wait.at) % TWO_32 >= TotalDelta(usec, mult, div))
    ensures !wait.Halted? && ReadEvery(counts, 1000) ==>
      var total := TotalDelta(usec, mult, div);
      && (forall i :: 0 < i < (if wait.Returned? then wait.at else |counts|) ==> Elapsed(counts, i) < total)
      && (wait.Returned? ==> total <= Elapsed(counts, wait.at) < TWO_32)
  {
    if mult == 0 || div == 0 { return Halted; }
    if usec >= UINT64_MAX / div { return Halted; }
    var total := TotalDelta(usec, mult, div);
    if total >= UINT32_MAX - 1000 { return Halted; }
    wait := Poll(total, counts);
    if wait.Returned? { EnoughIsLate(usec, mult, div, counts, times, wait.at); }
    if ReadEvery(counts, 1000) {
      OftenEnough(counts, total, if wait.Returned? then wait.at + 1 else |counts|);
    }
  }

  /** The loop of `udelay`. */
  method Poll(total: nat, counts: seq<nat>) returns (wait: Wait)
    requires counts != [] && Monotone(counts)
    ensures !wait.Halted?
    ensures wait.Returned? ==> 0 < wait.at < |counts| && Elapsed(counts, wait.at) % TWO_32 >= total
    ensures StillWaiting(counts, total, if wait.Returned? then wait.at else |counts|)
  {
    var start := TimerValue(counts[0]);
    var i := 1;
    while i < |counts|
      invariant 1 <= i <= |counts|
      invariant StillWaiting(counts, total, i)
    {
      assert counts[0] <= counts[i];
      DeltaIsElapsed(counts[0], counts[i]);
      var delta := Sub32(start, TimerValue(counts[i]));
      if delta >= total { return Returned(i); }
      i := i + 1;
    }
    return Polling;
  }
}
