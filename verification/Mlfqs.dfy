/** The 4.4BSD-style scheduler state: load average, recent CPU time and priorities, in fixed point. */
module Mlfqs {
  import opened CDivision
  import opened FixedPoint

  const PRI_MIN := 0
  const PRI_MAX := 63
  const NICE_MIN := -20
  const NICE_MAX := 20
  const TIMER_FREQ := 100
  const PRI_RECALC_PERIOD := 4
  const LOAD_AVG_PERIOD := 6000

  const MOMENTUM := Divide(FromInt(LOAD_AVG_PERIOD - TIMER_FREQ), FromInt(LOAD_AVG_PERIOD))
  const DECAY := Divide(FromInt(TIMER_FREQ), FromInt(LOAD_AVG_PERIOD))

  lemma Coefficients()
    ensures MOMENTUM == 16110 && DECAY == 273
  {
  }

  /** The load average after a second in which N threads were ready or running. */
  function NextLoad(load: int, n: int): int {
    Add(Multiply(MOMENTUM, load), MultiplyWithInt(DECAY, n))
  }

  function Ratio(load: int): int
    requires load >= 0
  {
    var twice := MultiplyWithInt(load, 2);
    Divide(twice, AddWithInt(twice, 1))
  }

  /** A thread's recent CPU time after the update once per second. */
  function NextRecent(recent: int, load: int, nice: int): int
    requires load >= 0
  {
    AddWithInt(Multiply(recent, Ratio(load)), nice)
  }

  function Penalty(recent: int): int {
    ToIntCeiled(DivideByInt(recent, 4))
  }

  function Priority(recent: int, nice: int): (p: int)
    ensures PRI_MIN <= p <= PRI_MAX
  {
    var p := PRI_MAX - Penalty(recent) - nice * 2;
    if p < PRI_MIN then PRI_MIN else if p > PRI_MAX then PRI_MAX else p
  }

  // The load average.

  lemma LoadStays(load: int, n: int, max: nat)
    requires 0 <= load <= max * F && 0 <= n <= max
    ensures 0 <= NextLoad(load, n) <= max * F
  {
    Coefficients();
    assert Multiply(MOMENTUM, load) == 16110 * load / F;
    DivLess(16110 * load, F, 16110 * max + 1);
  }

  /** The recurrence in fixed point and in exact arithmetic, over the counts of successive seconds. */
  function FixedLoad(counts: seq<nat>): int {
    if counts == [] then FromInt(0) else NextLoad(FixedLoad(counts[..|counts| - 1]), counts[|counts| - 1])
  }

  ghost function ExactLoad(counts: seq<nat>): real {
    if counts == [] then 0.0
    else 59.0 / 60.0 * ExactLoad(counts[..|counts| - 1]) + counts[|counts| - 1] as real / 60.0
  }

  ghost predicate AtMost(counts: seq<nat>, max: nat) {
    forall i | 0 <= i < |counts| :: counts[i] <= max
  }

  lemma {:induction false} FixedLoadRange(counts: seq<nat>, max: nat)
    requires AtMost(counts, max)
    ensures 0 <= FixedLoad(counts) <= max * F
  {
    if counts != [] {
      FixedLoadRange(counts[..|counts| - 1], max);
      LoadStays(FixedLoad(counts[..|counts| - 1]), counts[|counts| - 1], max);
    }
  }

  /** The computed load average is never above the exact one, and below it by at most 60 * (max + 1) units. */
  lemma {:induction false} LoadAccuracy(counts: seq<nat>, max: nat)
    requires AtMost(counts, max)
    ensures 0.0 <= ExactLoad(counts) * F as real - FixedLoad(counts) as real <= 60.0 * (max + 1) as real
  {
    if counts != [] {
      var before, n := counts[..|counts| - 1], counts[|counts| - 1];
      LoadAccuracy(before, max);
      FixedLoadRange(before, max);
      StepAccuracy(ExactLoad(before), FixedLoad(before), n, max);
    }
  }

  lemma StepAccuracy(exact: real, load: int, n: nat, max: nat)
    requires 0 <= load <= max * F && n <= max
    requires 0.0 <= exact * F as real - load as real <= 60.0 * (max + 1) as real
    ensures 0.0 <= (59.0 / 60.0 * exact + n as real / 60.0) * F as real - NextLoad(load, n) as real
                <= 60.0 * (max + 1) as real
  {
    Coefficients();
    var q, r := 16110 * load / F, 16110 * load % F;
    assert NextLoad(load, n) == q + 273 * n;
    assert 16110 * load == F * q + r;
    var l, m, x := load as real, max as real, exact * F as real;
    assert q as real == (16110.0 * l - r as real) / F as real;
    assert l <= m * F as real;
    assert (59.0 / 60.0 * exact + n as real / 60.0) * F as real == 59.0 / 60.0 * x + n as real * F as real / 60.0;
  }

  // Recent CPU time.

  lemma RatioBound(load: int, max: nat)
    requires 0 <= load <= max * F
    ensures 0 <= Ratio(load) <= F && Ratio(load) * (2 * max + 1) <= 2 * max * F
  {
    var t := 2 * load;
    var c := Ratio(load);
    assert c == t * F / (t + F);
    DivLess(t * F, t + F, F + 1);
    RatioStep(c, t, 2 * max);
  }

  /** The decay factor 2L / (2L + 1) for a load average L, in exact arithmetic. */
  ghost function ExactRatio(load: int): real
    requires load >= 0
  {
    var l := load as real / F as real;
    2.0 * l / (2.0 * l + 1.0)
  }

  /** A thread's recent CPU time after the update, in exact arithmetic and in units of 2^-14. */
  ghost function ExactRecent(recent: int, load: int, nice: int): real
    requires load >= 0
  {
    ExactRatio(load) * recent as real + (nice * F) as real
  }

  ghost function Magnitude(x: int): real {
    if x >= 0 then x as real else -x as real
  }

  lemma RatioQuotient(load: int)
    requires load >= 0
    ensures Ratio(load) >= 0
    ensures Ratio(load) * (2 * load + F) <= 2 * load * F < (Ratio(load) + 1) * (2 * load + F)
  {
    var n, d := 2 * load * F, 2 * load + F;
    assert Ratio(load) == n / d;
    assert n == d * (n / d) + n % d;
  }

  /** The computed decay factor is the exact one, rounded down. */
  lemma RatioAccuracy(load: int)
    requires load >= 0
    ensures 0.0 <= ExactRatio(load) * F as real - Ratio(load) as real < 1.0
  {
    RatioQuotient(load);
    hide Ratio;
    var c, n, d := Ratio(load), (2 * load * F) as real, (2 * load + F) as real;
    assert ExactRatio(load) * F as real == n / d by {
      ExactQuotient(load);
    }
    QuotientBetween(c as real, n, d);
  }

  lemma ExactQuotient(load: int)
    requires load >= 0
    ensures ExactRatio(load) * F as real == (2 * load * F) as real / (2 * load + F) as real
  {
    var x, f := load as real, F as real;
    var l := x / f;
    var r := ExactRatio(load);
    assert 2.0 * l + 1.0 == (2.0 * x + f) / f;
    assert 2.0 * l == 2.0 * x / f;
    assert r == (2.0 * x / f) / ((2.0 * x + f) / f);
    Cancel(2.0 * x, 2.0 * x + f, f);
  }

  lemma Cancel(a: real, b: real, f: real)
    requires f > 0.0 && b > 0.0
    ensures (a / f) / (b / f) * f == a * f / b
  {
    var p, q := a / f, b / f;
    assert p * f == a && q * f == b;
    assert (p / q) * b == p * f;
    assert (p / q) * f * b == a * f;
  }

  lemma QuotientBetween(c: real, n: real, d: real)
    requires d > 0.0 && c * d <= n < (c + 1.0) * d
    ensures 0.0 <= n / d - c < 1.0
  {
    var q := n / d;
    assert q * d == n;
    if q < c {
      TimesLess(q, c, d);
    } else if q >= c + 1.0 {
      TimesLess(c + 1.0, q, d);
    }
  }

  lemma TimesLess(x: real, y: real, d: real)
    requires d > 0.0
    ensures x < y ==> x * d < y * d
    ensures x <= y ==> x * d <= y * d
  {
  }

  /** CPU time T' comes from T by the update: right to one unit, and one for each second of it. */
  ghost predicate DecaysTo(recent: int, load: int, nice: int, recent': int)
    requires load >= 0
  {
    var error, most := recent' as real - ExactRecent(recent, load, nice), 1.0 + Magnitude(recent) / F as real;
    -most <= error <= most
  }

  lemma RecentAccuracy(recent: int, load: int, nice: int)
    requires load >= 0
    ensures DecaysTo(recent, load, nice, NextRecent(recent, load, nice))
  {
    hide Ratio, ExactRatio, Multiply;
    RatioAccuracy(load);
    var c := Ratio(load);
    var q := Multiply(recent, c);
    MultiplyClose(recent, c);
    DecayError(ExactRatio(load), c as real, recent as real, q as real);
    assert (q + nice * F) as real == q as real + (nice * F) as real;
  }

  lemma MultiplyClose(x: int, y: int)
    ensures -1.0 <= Multiply(x, y) as real - y as real * x as real / F as real <= 1.0
  {
    TruncClose(x * y, Multiply(x, y));
    hide Multiply;
    assert (x * y) as real == y as real * x as real;
  }

  lemma DecayError(exact: real, c: real, r: real, q: real)
    requires 0.0 <= exact * F as real - c < 1.0 && -1.0 <= q - c * r / F as real <= 1.0
    ensures var most := 1.0 + (if r >= 0.0 then r else -r) / F as real;
            -most <= q - exact * r <= most
  {
    var u, e := r / F as real, exact * F as real - c;
    assert exact * r == (c + e) * u == c * u + e * u;
    assert c * r / F as real == c * u;
    ErrorBound(e, u);
  }

  lemma TruncClose(x: int, q: int)
    requires q == TruncDiv(x, F)
    ensures -1.0 <= q as real - x as real / F as real <= 1.0
  {
    assert -F < x - F * q < F;
  }

  lemma ErrorBound(e: real, r: real)
    requires 0.0 <= e < 1.0
    ensures r >= 0.0 ==> 0.0 <= e * r <= r
    ensures r < 0.0 ==> r <= e * r <= 0.0
  {
  }

  lemma RatioStep(c: int, t: int, m: int)
    requires 0 <= c <= F && 0 <= t <= m * F && c == t * F / (t + F)
    ensures c * (m + 1) <= m * F
  {
    var ct, cm := c * t, c * m;
    assert ct + c * F <= t * F by {
      assert c * (t + F) <= t * F;
    }
    MulMono(F - c, t, m * F);
    assert (F - c) * t == F * t - ct;
    assert (F - c) * (m * F) == F * (m * F - cm);
    assert c * (m + 1) == cm + c;
  }

  /** The bounds of recent CPU time K ticks after an update, when at most MAX threads are ever ready or running. */
  function Lowest(max: nat): int { -20 * (2 * max + 1) * F }
  function Highest(max: nat, k: nat): int { (240 * max + 20 + k) * F }

  /** The update brings a value from anywhere in the bounds of a whole second back into those at its start. */
  lemma RecentStays(recent: int, load: int, nice: int, max: nat)
    requires Lowest(max) <= recent <= Highest(max, TIMER_FREQ) && 0 <= load <= max * F
    requires NICE_MIN <= nice <= NICE_MAX
    ensures Lowest(max) <= NextRecent(recent, load, nice) <= Highest(max, 0)
  {
    RatioBound(load, max);
    var c := Ratio(load);
    hide Ratio;
    var product := recent * c;
    assert product <= 240 * max * F * F by {
      if recent >= 0 {
        MulMono(c, recent, 120 * (2 * max + 1) * F);
        assert 120 * (2 * max + 1) * F * c == 120 * F * (c * (2 * max + 1));
      } else {
        MulMono(c, recent, 0);
      }
    }
    assert product >= -40 * max * F * F by {
      MulMono(c, -20 * (2 * max + 1) * F, recent);
      assert -20 * (2 * max + 1) * F * c == -20 * F * (c * (2 * max + 1));
    }
    TruncBetween(product, -40 * max * F, 240 * max * F);
  }

  lemma TruncBetween(x: int, low: int, high: int)
    requires low <= 0 <= high && low * F <= x <= high * F
    ensures low <= TruncDiv(x, F) <= high
  {
  }

  /** X is a value of C type int. */
  predicate Fits(x: int) {
    -0x8000_0000 <= x < 0x8000_0000
  }

  predicate FitsLong(x: int) {
    -0x8000_0000_0000_0000 <= x < 0x8000_0000_0000_0000
  }

  /** With at most 545 threads no step of the updates overflows: neither the results nor what they pass through. */
  lemma NoOverflow(recent: int, load: int, nice: int, n: nat, max: nat)
    requires max <= 545 && n <= max && 0 <= load <= max * F && NICE_MIN <= nice <= NICE_MAX
    requires Lowest(max) <= recent <= Highest(max, TIMER_FREQ)
    ensures Fits(recent) && Fits(load) && Fits(NextLoad(load, n)) && Fits(NextRecent(recent, load, nice))
    ensures FitsLong(MOMENTUM * load) && Fits(Multiply(MOMENTUM, load)) && Fits(MultiplyWithInt(DECAY, n))
    ensures Fits(2 * load) && Fits(2 * load + F) && FitsLong(2 * load * F)
    ensures FitsLong(recent * Ratio(load)) && Fits(Multiply(recent, Ratio(load)))
    ensures Fits(PRI_MAX - Penalty(recent) - nice * 2)
  {
    Coefficients();
    LoadStays(load, n, max);
    LoadStays(load, 0, max);
    RecentStays(recent, load, nice, max);
    RecentStays(recent, load, 0, max);
    RatioBound(load, max);
    ProductFits(recent, Ratio(load));
  }

  lemma ProductFits(recent: int, c: int)
    requires Fits(recent) && 0 <= c <= F
    ensures FitsLong(recent * c)
  {
    if recent >= 0 {
      MulMono(recent, c, F);
      MulMono(recent, 0, c);
    } else {
      MulMono(-recent, c, F);
      MulMono(-recent, 0, c);
      MulNeg(recent, c);
    }
  }

  /** Nothing overflows where a thread's priority is computed. */
  predicate PriorityFits(recent: int, nice: int) {
    && Fits(recent) && Fits(DivideByInt(recent, 4)) && Fits(Penalty(recent)) && Fits(nice * 2)
    && Fits(PRI_MAX - Penalty(recent)) && Fits(PRI_MAX - Penalty(recent) - nice * 2)
  }

  /** Nothing overflows where the load average is updated. */
  predicate LoadFits(load: int, n: int) {
    && FitsLong(MOMENTUM * load) && Fits(Multiply(MOMENTUM, load)) && Fits(MultiplyWithInt(DECAY, n))
    && Fits(NextLoad(load, n))
  }

  /** Nothing overflows where a thread's CPU time is updated. */
  predicate RecentFits(recent: int, load: int, nice: int)
    requires load >= 0
  {
    && Fits(2 * load) && Fits(2 * load + F) && FitsLong(2 * load * F) && Fits(Ratio(load))
    && FitsLong(recent * Ratio(load)) && Fits(Multiply(recent, Ratio(load))) && Fits(NextRecent(recent, load, nice))
  }

  lemma UpdatesFit(recent: int, load: int, nice: int, n: nat, max: nat)
    requires max <= 545 && n <= max && 0 <= load <= max * F && NICE_MIN <= nice <= NICE_MAX
    requires Lowest(max) <= recent <= Highest(max, TIMER_FREQ)
    ensures LoadFits(load, n) && RecentFits(recent, load, nice) && PriorityFits(recent, nice)
  {
    NoOverflow(recent, load, nice, n, max);
    RatioBound(load, max);
    hide Ratio, NextRecent, NextLoad, Multiply;
  }

  /** The bounds themselves are values of an int for at most 545 threads and no more. */
  lemma BoundsFit(max: nat)
    ensures Fits(Lowest(max)) && Fits(Highest(max, TIMER_FREQ)) <==> max <= 545
  {
  }

  /** The largest magnitude of a number that can be reported times a hundred. */
  const REPORT_MAX := 21474754

  /** Neither the product nor the half added to or taken from it overflows. */
  predicate ReportFits(x: int) {
    var product := MultiplyWithInt(x, 100);
    Fits(product) && Fits(if x >= 0 then product + F / 2 else product - F / 2)
  }

  /** The load average and CPU time are reported times a hundred, as an int.  That is right exactly up to a
      little over 1310 in magnitude, and then the nearest integer. */
  lemma ReportExact(x: int)
    ensures ReportFits(x) <==> -REPORT_MAX <= x <= REPORT_MAX
    ensures -F <= 2 * (F * ToIntNearest(MultiplyWithInt(x, 100)) - 100 * x) <= F
  {
    NearestClose(100 * x);
  }

  /** Every load average within its bounds can be reported for at most 1310 threads and no more. */
  lemma LoadReported(max: nat)
    ensures (forall load | 0 <= load <= max * F :: ReportFits(load)) <==> max <= 1310
  {
    if max <= 1310 {
      assert max * F <= REPORT_MAX;
    } else {
      assert !ReportFits(max * F);
    }
  }

  /** Every CPU time within its bounds can be reported for at most four threads and no more. */
  lemma RecentReported(max: nat)
    ensures (forall recent | Lowest(max) <= recent <= Highest(max, TIMER_FREQ - 1) :: ReportFits(recent)) <==> max <= 4
  {
    if max > 4 {
      assert !ReportFits(Highest(max, TIMER_FREQ - 1));
    }
  }

  // Priorities.

  /** A quarter of RECENT', toward zero, is whole and not positive, and a quarter of RECENT is less than one below. */
  predicate Drops(recent: int, recent': int) {
    var a, a' := TruncDiv(recent, 4), TruncDiv(recent', 4);
    a' <= 0 && a' % F == 0 && a' - F < a < a'
  }

  lemma QuarterMonotone(x: int, y: int)
    requires x <= y
    ensures TruncDiv(x, 4) <= TruncDiv(y, 4)
  {
  }

  lemma CeiledDrops(a: int, b: int)
    requires a <= b
    ensures ToIntCeiled(b) < ToIntCeiled(a) <==> b <= 0 && b % F == 0 && b - F < a < b
    ensures ToIntCeiled(a) <= ToIntCeiled(b) + 1
  {
  }

  /** More CPU time means a smaller penalty exactly when it drops, and then a penalty smaller by one. */
  lemma PenaltyDrops(recent: int, recent': int)
    requires recent <= recent'
    ensures Penalty(recent') < Penalty(recent) <==> Drops(recent, recent')
    ensures Penalty(recent) <= Penalty(recent') + 1
  {
    QuarterMonotone(recent, recent');
    CeiledDrops(TruncDiv(recent, 4), TruncDiv(recent', 4));
  }

  /** More CPU time or more niceness does not mean a higher priority, except that the penalty may drop while the
      niceness is the same, and is not hidden by the limits of the priority. */
  lemma PriorityMonotone(recent: int, recent': int, nice: int, nice': int)
    requires recent <= recent' && nice <= nice'
    ensures Priority(recent', nice') <= Priority(recent, nice)
       <==> !(Drops(recent, recent') && nice == nice' && 0 < PRI_MAX - Penalty(recent') - nice * 2 <= PRI_MAX)
  {
    PenaltyDrops(recent, recent');
    hide Penalty, Drops;
  }

  /** The priority in exact arithmetic, within its limits. */
  ghost function ExactPriority(recent: int, nice: int): real {
    var p := PRI_MAX as real - recent as real / (4 * F) as real - 2.0 * nice as real;
    if p < PRI_MIN as real then PRI_MIN as real else if p > PRI_MAX as real then PRI_MAX as real else p
  }

  lemma PenaltyClose(recent: int)
    ensures recent - 3 <= 4 * F * Penalty(recent) < recent + 8 * F
    ensures recent >= 0 ==> 4 * F * Penalty(recent) < recent + 4 * F
  {
    var a := TruncDiv(recent, 4);
    assert -4 < recent - 4 * a < 4 && (recent >= 0 ==> recent >= 4 * a);
    CeiledClose(a);
  }

  lemma CeiledClose(a: int)
    ensures a <= F * ToIntCeiled(a) < a + 2 * F
    ensures a >= 0 ==> F * ToIntCeiled(a) < a + F
  {
  }

  /** The priority is the exact one rounded down, but for three quarters of a unit; for negative CPU time it may be one
      less. */
  lemma PriorityAccuracy(recent: int, nice: int)
    ensures var exact := ExactPriority(recent, nice);
            && exact - 2.0 < Priority(recent, nice) as real <= exact + 3.0 / (4 * F) as real
            && (recent >= 0 ==> exact - 1.0 < Priority(recent, nice) as real)
  {
    PenaltyClose(recent);
    var k := Penalty(recent);
    hide Penalty;
    var x := recent as real / (4 * F) as real;
    assert x - 3.0 / (4 * F) as real <= k as real < x + 2.0;
    assert recent >= 0 ==> k as real < x + 1.0;
  }

  /** Nothing drops from CPU time that is not negative. */
  lemma DropsNegative(recent: int, recent': int)
    requires Drops(recent, recent')
    ensures recent < 0
  {
  }

  /** A thread four units in the last place below no CPU time at all has the lower priority. */
  lemma MonotoneFails()
    ensures Priority(-4, 0) == 62 && Priority(0, 0) == 63
  {
  }

  /** The penalty is a quarter of the CPU time rounded up, as intended, unless the time is positive and exceeds a
      multiple of four seconds' worth by less than four units in the last place, or is negative and lies below one by
      four units or more. */
  lemma PenaltyExact(recent: int)
    ensures 4 * F * (Penalty(recent) - 1) < recent <= 4 * F * Penalty(recent)
       <==> if recent >= 0 then recent % (4 * F) == 0 || recent % (4 * F) >= 4 else -recent % (4 * F) < 4
  {
    if recent >= 0 {
      PenaltyUp(recent);
    } else {
      PenaltyDown(-recent);
    }
  }

  lemma PenaltyUp(recent: nat)
    ensures 4 * F * (Penalty(recent) - 1) < recent <= 4 * F * Penalty(recent)
       <==> recent % (4 * F) == 0 || recent % (4 * F) >= 4
  {
    var k, r := recent / (4 * F), recent % (4 * F);
    var a := recent / 4;
    assert a == F * k + r / 4;
    CeiledExact(a);
    var p := Penalty(recent);
    assert F * (p - 1) < a <= F * p;
    hide Penalty, IsCeiling;
    assert p == if r / 4 == 0 then k else k + 1;
  }

  lemma PenaltyDown(m: int)
    requires m > 0
    ensures 4 * F * (Penalty(-m) - 1) < -m <= 4 * F * Penalty(-m) <==> m % (4 * F) < 4
  {
    var k, r := m / (4 * F), m % (4 * F);
    var a := m / 4;
    assert a == F * k + r / 4;
    assert TruncDiv(-m, 4) == -a;
    assert a / F == k && a % F == r / 4;
    var p := Penalty(-m);
    assert p == if r / 4 == 0 then -k else 1 - k;
    hide Penalty;
  }

  // The scheduler's state and its runs.

  datatype Thread = Thread(isIdle: bool, nice: int, recentCpu: int, priority: int)

  datatype State = State(ticks: nat, loadAvg: int, threads: seq<Thread>)

  /** What happens to the state.  CURRENT is the running thread's place in the list of all threads, and READY
      the number of threads ready or running, both at the time of a timer tick. */
  datatype Event =
    | Tick(current: nat, ready: nat)
    | SetNice(current: nat, nice: int)
    | Create(current: nat)
    | Exit(current: nat)
    | StartIdle(current: nat)

  function Charged(threads: seq<Thread>, current: nat): (r: seq<Thread>)
    requires current < |threads|
    ensures |r| == |threads|
  {
    var t := threads[current];
    if t.isIdle then threads else threads[current := t.(recentCpu := AddWithInt(t.recentCpu, 1))]
  }

  function Decayed(threads: seq<Thread>, load: int): (r: seq<Thread>)
    requires load >= 0
    ensures |r| == |threads|
  {
    seq(|threads|, i requires 0 <= i < |threads| =>
      threads[i].(recentCpu := NextRecent(threads[i].recentCpu, load, threads[i].nice)))
  }

  function Repriced(t: Thread): Thread {
    if t.isIdle then t else t.(priority := Priority(t.recentCpu, t.nice))
  }

  function RepricedAll(threads: seq<Thread>): (r: seq<Thread>)
    ensures |r| == |threads|
  {
    seq(|threads|, i requires 0 <= i < |threads| => Repriced(threads[i]))
  }

  /** The threads with the one at CURRENT as the idle thread. */
  function Marked(threads: seq<Thread>, current: nat): (r: seq<Thread>)
    ensures |r| == |threads|
  {
    seq(|threads|, i requires 0 <= i < |threads| => threads[i].(isIdle := i == current))
  }

  function Ticked(s: State, current: nat, ready: nat): State
    requires current < |s.threads|
  {
    var ticks := s.ticks + 1;
    var second := ticks % TIMER_FREQ == 0;
    var charged := Charged(s.threads, current);
    var load := if second then NextLoad(s.loadAvg, ready) else s.loadAvg;
    var decayed := if second && load >= 0 then Decayed(charged, load) else charged;
    State(ticks, load, if ticks % PRI_RECALC_PERIOD == 0 then RepricedAll(decayed) else decayed)
  }

  /** What a tick does to each thread and to the load average. */
  lemma TickMeans(s: State, current: nat, ready: nat, i: nat)
    requires current < |s.threads| && i < |s.threads| && s.loadAvg >= 0 && NextLoad(s.loadAvg, ready) >= 0
    ensures var s' := Ticked(s, current, ready);
            && s'.ticks == s.ticks + 1 && |s'.threads| == |s.threads|
            && s'.loadAvg == if s'.ticks % TIMER_FREQ == 0 then NextLoad(s.loadAvg, ready) else s.loadAvg
    ensures var s', t, t' := Ticked(s, current, ready), s.threads[i], Ticked(s, current, ready).threads[i];
            var charged := if i == current && !t.isIdle then t.recentCpu + F else t.recentCpu;
            && t'.isIdle == t.isIdle && t'.nice == t.nice
            && t'.recentCpu == (if s'.ticks % TIMER_FREQ == 0 then NextRecent(charged, s'.loadAvg, t.nice) else charged)
            && t'.priority == if s'.ticks % PRI_RECALC_PERIOD == 0 && !t.isIdle then Priority(t'.recentCpu, t.nice)
                              else t.priority
  {
    hide NextRecent, NextLoad, Priority;
  }

  predicate EventOk(s: State, e: Event, max: nat) {
    && e.current < |s.threads|
    && (e.Tick? ==> e.ready <= max)
    && (e.SetNice? ==> NICE_MIN <= e.nice <= NICE_MAX)
  }

  function Step(s: State, e: Event): State
    requires e.current < |s.threads|
  {
    var t := s.threads[e.current];
    match e
    case Tick(current, ready) => Ticked(s, current, ready)
    case SetNice(_, nice) => s.(threads := s.threads[e.current := Repriced(t.(nice := nice))])
    case Create(_) => s.(threads := s.threads + [Repriced(Thread(false, t.nice, t.recentCpu, PRI_MIN))])
    case Exit(_) => s.(threads := s.threads[..e.current] + s.threads[e.current + 1..])
    case StartIdle(_) => s.(threads := Marked(s.threads, e.current))
  }

  /** A thread that exits is no longer there, and no other thread is affected. */
  lemma ExitLeaves(s: State, current: nat)
    requires current < |s.threads|
    ensures var s' := Step(s, Exit(current));
            && s'.ticks == s.ticks && s'.loadAvg == s.loadAvg
            && multiset(s'.threads) == multiset(s.threads) - multiset{s.threads[current]}
  {
    var t := s.threads;
    assert t == t[..current] + [t[current]] + t[current + 1..];
  }

  /** A run in which at most MAX threads are ever ready or running. */
  predicate RunOk(s: State, events: seq<Event>, max: nat)
    decreases |events|
  {
    events == [] || (EventOk(s, events[0], max) && RunOk(Step(s, events[0]), events[1..], max))
  }

  function After(s: State, events: seq<Event>, max: nat): State
    requires RunOk(s, events, max)
    decreases |events|
  {
    if events == [] then s else After(Step(s, events[0]), events[1..], max)
  }

  /** The counts of ready threads that the run's ticks, from TICKS on, feed into the load average. */
  function Sampled(ticks: nat, events: seq<Event>): seq<nat>
    decreases |events|
  {
    if events == [] then []
    else if !events[0].Tick? then Sampled(ticks, events[1..])
    else (if (ticks + 1) % TIMER_FREQ == 0 then [events[0].ready] else []) + Sampled(ticks + 1, events[1..])
  }

  ghost predicate ThreadOk(t: Thread, max: nat, k: nat) {
    && Lowest(max) <= t.recentCpu <= Highest(max, k)
    && NICE_MIN <= t.nice <= NICE_MAX
    && PRI_MIN <= t.priority <= PRI_MAX
  }

  ghost predicate ThreadsOk(threads: seq<Thread>, max: nat, k: nat) {
    forall i | 0 <= i < |threads| :: ThreadOk(threads[i], max, k)
  }

  ghost predicate StateOk(s: State, max: nat) {
    && 0 <= s.loadAvg <= max * F
    && ThreadsOk(s.threads, max, s.ticks % TIMER_FREQ)
  }

  /** Every event keeps the bounds. */
  lemma StepKeeps(s: State, e: Event, max: nat)
    requires StateOk(s, max) && EventOk(s, e, max)
    ensures StateOk(Step(s, e), max)
  {
    match e
    case Tick(current, ready) => TickKeeps(s, current, ready, max);
    case StartIdle(current) => MarkedOk(s.threads, current, max, s.ticks % TIMER_FREQ);
    case _ =>
  }

  lemma ChargedOk(threads: seq<Thread>, current: nat, max: nat, k: nat)
    requires current < |threads| && ThreadsOk(threads, max, k)
    ensures ThreadsOk(Charged(threads, current), max, k + 1)
  {
    forall i | 0 <= i < |threads|
      ensures ThreadOk(Charged(threads, current)[i], max, k + 1)
    {
      assert ThreadOk(threads[i], max, k);
    }
  }

  lemma MarkedOk(threads: seq<Thread>, current: nat, max: nat, k: nat)
    requires ThreadsOk(threads, max, k)
    ensures ThreadsOk(Marked(threads, current), max, k)
  {
    forall i | 0 <= i < |threads|
      ensures ThreadOk(Marked(threads, current)[i], max, k)
    {
      assert ThreadOk(threads[i], max, k);
    }
  }

  lemma DecayedOk(threads: seq<Thread>, load: int, max: nat)
    requires ThreadsOk(threads, max, TIMER_FREQ) && 0 <= load <= max * F
    ensures ThreadsOk(Decayed(threads, load), max, 0)
  {
    forall i | 0 <= i < |threads|
      ensures ThreadOk(Decayed(threads, load)[i], max, 0)
    {
      assert ThreadOk(threads[i], max, TIMER_FREQ);
      RecentStays(threads[i].recentCpu, load, threads[i].nice, max);
    }
  }

  lemma TickKeeps(s: State, current: nat, ready: nat, max: nat)
    requires StateOk(s, max) && current < |s.threads| && ready <= max
    ensures StateOk(Ticked(s, current, ready), max)
  {
    hide ThreadOk, NextLoad, NextRecent, Priority;
    var k := s.ticks % TIMER_FREQ;
    ChargedOk(s.threads, current, max, k);
    LoadStays(s.loadAvg, ready, max);
    var charged := Charged(s.threads, current);
    if (s.ticks + 1) % TIMER_FREQ == 0 {
      var load := NextLoad(s.loadAvg, ready);
      DecayedOk(charged, load, max);
      RepricedOk(Decayed(charged, load), max, 0);
    } else {
      RepricedOk(charged, max, k + 1);
    }
  }

  lemma RepricedOk(threads: seq<Thread>, max: nat, k: nat)
    requires ThreadsOk(threads, max, k)
    ensures ThreadsOk(RepricedAll(threads), max, k)
  {
    forall i | 0 <= i < |threads|
      ensures ThreadOk(RepricedAll(threads)[i], max, k)
    {
      assert ThreadOk(threads[i], max, k);
    }
  }

  lemma StepLoad(s: State, e: Event, max: nat, counts: seq<nat>)
    requires EventOk(s, e, max) && AtMost(counts, max) && s.loadAvg == FixedLoad(counts)
    ensures var more := Sampled(s.ticks, [e]);
            AtMost(counts + more, max) && Step(s, e).loadAvg == FixedLoad(counts + more)
    ensures Step(s, e).ticks == if e.Tick? then s.ticks + 1 else s.ticks
  {
    hide Charged, Decayed, Repriced, RepricedAll, NextLoad;
    if e.Tick? && (s.ticks + 1) % TIMER_FREQ == 0 {
      assert Sampled(s.ticks, [e]) == [e.ready];
      assert (counts + [e.ready])[..|counts|] == counts;
    } else {
      assert Sampled(s.ticks, [e]) == [];
      assert counts + [] == counts;
    }
  }

  lemma SampledSplit(ticks: nat, events: seq<Event>)
    requires events != []
    ensures Sampled(ticks, events)
         == Sampled(ticks, [events[0]]) + Sampled(if events[0].Tick? then ticks + 1 else ticks, events[1..])
  {
    assert [events[0]][1..] == [];
  }

  /** In every run from a state within the bounds, every thread's CPU time and priority stay within theirs,
      and the load average is the recurrence over the sampled counts. */
  lemma {:induction false} RunKeeps(s: State, events: seq<Event>, max: nat, counts: seq<nat>)
    requires StateOk(s, max) && RunOk(s, events, max)
    requires AtMost(counts, max) && s.loadAvg == FixedLoad(counts)
    ensures StateOk(After(s, events, max), max)
    ensures var all := counts + Sampled(s.ticks, events);
            AtMost(all, max) && After(s, events, max).loadAvg == FixedLoad(all)
    decreases |events|
  {
    hide Step, StateOk, FixedLoad, AtMost;
    if events == [] {
      assert counts + [] == counts;
    } else {
      hide Sampled;
      var next := Step(s, events[0]);
      var more := Sampled(s.ticks, [events[0]]);
      StepKeeps(s, events[0], max);
      StepLoad(s, events[0], max, counts);
      RunKeeps(next, events[1..], max, counts + more);
      SampledSplit(s.ticks, events);
      assert counts + more + Sampled(next.ticks, events[1..]) == counts + Sampled(s.ticks, events);
    }
  }

  /** The state at boot: one thread with no CPU time and no niceness. */
  function Boot(): State {
    State(0, FromInt(0), [Thread(false, 0, FromInt(0), Priority(FromInt(0), 0))])
  }

  ghost predicate OneIdle(threads: seq<Thread>) {
    forall i, j | 0 <= i < j < |threads| :: !(threads[i].isIdle && threads[j].isIdle)
  }

  lemma StepOneIdle(s: State, e: Event)
    requires e.current < |s.threads| && OneIdle(s.threads)
    ensures OneIdle(Step(s, e).threads)
  {
    hide NextRecent, NextLoad, Priority;
  }

  /** At most one thread is ever idle. */
  lemma {:induction false} RunOneIdle(s: State, events: seq<Event>, max: nat)
    requires RunOk(s, events, max) && OneIdle(s.threads)
    ensures OneIdle(After(s, events, max).threads)
    decreases |events|
  {
    hide Step, OneIdle;
    if events != [] {
      StepOneIdle(s, events[0]);
      RunOneIdle(Step(s, events[0]), events[1..], max);
    }
  }

  /** From boot on, with at most MAX threads ready or running: all values stay within their bounds, at most one
      thread is idle, and the load average stays within 60 * (max + 1) units below the exact one. */
  lemma FromBoot(events: seq<Event>, max: nat)
    requires RunOk(Boot(), events, max)
    ensures StateOk(After(Boot(), events, max), max) && OneIdle(After(Boot(), events, max).threads)
    ensures var exact := ExactLoad(Sampled(0, events)) * F as real;
            0.0 <= exact - After(Boot(), events, max).loadAvg as real <= 60.0 * (max + 1) as real
  {
    RunKeeps(Boot(), events, max, []);
    RunOneIdle(Boot(), events, max);
    assert [] + Sampled(0, events) == Sampled(0, events);
    LoadAccuracy(Sampled(0, events), max);
  }

  // Nothing overflows.

  ghost predicate PrioritiesFit(threads: seq<Thread>) {
    forall i | 0 <= i < |threads| :: PriorityFits(threads[i].recentCpu, threads[i].nice)
  }

  /** Nothing overflows in what a tick does. */
  ghost predicate TickFits(s: State, current: nat, ready: nat)
    requires current < |s.threads|
  {
    var ticks, charged := s.ticks + 1, Charged(s.threads, current);
    && Fits(charged[current].recentCpu)
    && (ticks % TIMER_FREQ == 0 ==>
          && LoadFits(s.loadAvg, ready) && NextLoad(s.loadAvg, ready) >= 0
          && forall i | 0 <= i < |charged| ::
               RecentFits(charged[i].recentCpu, NextLoad(s.loadAvg, ready), charged[i].nice))
    && PrioritiesFit(Ticked(s, current, ready).threads)
  }

  ghost predicate EventFits(s: State, e: Event)
    requires e.current < |s.threads|
  {
    match e
    case Tick(current, ready) => TickFits(s, current, ready)
    case _ => PrioritiesFit(Step(s, e).threads)
  }

  lemma ThreadsFit(threads: seq<Thread>, max: nat, k: nat)
    requires ThreadsOk(threads, max, k) && k <= TIMER_FREQ && max <= 545
    ensures PrioritiesFit(threads)
  {
    forall i | 0 <= i < |threads|
      ensures PriorityFits(threads[i].recentCpu, threads[i].nice)
    {
      assert ThreadOk(threads[i], max, k);
      UpdatesFit(threads[i].recentCpu, 0, threads[i].nice, 0, max);
    }
  }

  lemma SecondFits(s: State, current: nat, ready: nat, max: nat)
    requires StateOk(s, max) && current < |s.threads| && ready <= max <= 545 && (s.ticks + 1) % TIMER_FREQ == 0
    ensures LoadFits(s.loadAvg, ready) && NextLoad(s.loadAvg, ready) >= 0
    ensures var charged := Charged(s.threads, current);
            forall i | 0 <= i < |charged| ::
              RecentFits(charged[i].recentCpu, NextLoad(s.loadAvg, ready), charged[i].nice)
  {
    var charged, load := Charged(s.threads, current), NextLoad(s.loadAvg, ready);
    LoadStays(s.loadAvg, ready, max);
    ChargedOk(s.threads, current, max, s.ticks % TIMER_FREQ);
    assert ThreadOk(charged[current], max, TIMER_FREQ);
    UpdatesFit(charged[current].recentCpu, s.loadAvg, charged[current].nice, ready, max);
    hide LoadFits, RecentFits, PriorityFits, NextLoad, Charged;
    forall i | 0 <= i < |charged|
      ensures RecentFits(charged[i].recentCpu, load, charged[i].nice)
    {
      assert ThreadOk(charged[i], max, TIMER_FREQ);
      UpdatesFit(charged[i].recentCpu, load, charged[i].nice, 0, max);
    }
  }

  lemma StepFits(s: State, e: Event, max: nat)
    requires StateOk(s, max) && EventOk(s, e, max) && max <= 545
    ensures EventFits(s, e)
  {
    hide LoadFits, RecentFits, PriorityFits, NextLoad, Lowest, Ticked;
    StepKeeps(s, e, max);
    ThreadsFit(Step(s, e).threads, max, Step(s, e).ticks % TIMER_FREQ);
    if e.Tick? {
      if (s.ticks + 1) % TIMER_FREQ == 0 {
        SecondFits(s, e.current, e.ready, max);
      }
      ChargeFits(s, e.current, max);
    }
  }

  lemma ChargeFits(s: State, current: nat, max: nat)
    requires StateOk(s, max) && current < |s.threads| && max <= 545
    ensures Fits(Charged(s.threads, current)[current].recentCpu)
  {
    ChargedOk(s.threads, current, max, s.ticks % TIMER_FREQ);
    assert ThreadOk(Charged(s.threads, current)[current], max, s.ticks % TIMER_FREQ + 1);
  }

  /** In no step of the run does anything overflow. */
  ghost predicate AllFit(s: State, events: seq<Event>, max: nat)
    requires RunOk(s, events, max)
    decreases |events|
  {
    events == [] || (EventFits(s, events[0]) && AllFit(Step(s, events[0]), events[1..], max))
  }

  lemma {:induction false} RunFits(s: State, events: seq<Event>, max: nat)
    requires StateOk(s, max) && RunOk(s, events, max) && max <= 545
    ensures AllFit(s, events, max)
    decreases |events|
  {
    hide StateOk, Step, EventFits;
    if events != [] {
      StepFits(s, events[0], max);
      StepKeeps(s, events[0], max);
      RunFits(Step(s, events[0]), events[1..], max);
    }
  }

  /** From boot on, with at most 545 threads ready or running, no value and no intermediate value ever overflows. */
  lemma BootFits(events: seq<Event>, max: nat)
    requires RunOk(Boot(), events, max) && max <= 545
    ensures AllFit(Boot(), events, max)
  {
    RunFits(Boot(), events, max);
  }

  ghost predicate TicksOf(events: seq<Event>, current: nat, max: nat) {
    forall i | 0 <= i < |events| :: events[i].Tick? && events[i].current == current && events[i].ready <= max
  }

  lemma IdleTick(s: State, current: nat, ready: nat)
    requires current < |s.threads| && s.threads[current].isIdle
    requires s.threads[current].recentCpu == s.threads[current].nice == 0
    ensures var next := Ticked(s, current, ready);
            |next.threads| == |s.threads| && next.threads[current] == s.threads[current]
  {
    hide Ratio, NextLoad, Priority;
  }

  /** Ticks that fall on an idle thread with no CPU time leave it with none, however many there are. */
  lemma {:induction false} IdleUncharged(s: State, events: seq<Event>, current: nat, max: nat)
    requires current < |s.threads| && s.threads[current].isIdle
    requires s.threads[current].recentCpu == s.threads[current].nice == 0
    requires TicksOf(events, current, max)
    ensures RunOk(s, events, max)
    ensures var threads := After(s, events, max).threads;
            |threads| == |s.threads| && threads[current] == s.threads[current]
    decreases |events|
  {
    hide Ticked;
    if events != [] {
      IdleTick(s, current, events[0].ready);
      IdleUncharged(Step(s, events[0]), events[1..], current, max);
    }
  }

  /** The system's start: the initial thread creates the idle thread, which marks itself.  Ticks that fall on it
      afterwards are charged to nobody. */
  lemma BootIdle(ticks: seq<Event>, max: nat)
    requires TicksOf(ticks, 1, max)
    ensures var events := [Create(0), StartIdle(1)] + ticks;
            && RunOk(Boot(), events, max)
            && var threads := After(Boot(), events, max).threads;
            |threads| == 2 && threads[1].isIdle && threads[1].recentCpu == 0
  {
    hide Priority;
    var events := [Create(0), StartIdle(1)] + ticks;
    var created := Step(Boot(), Create(0));
    var started := Step(created, StartIdle(1));
    assert events[1..] == [StartIdle(1)] + ticks && events[1..][1..] == ticks;
    IdleUncharged(started, ticks, 1, max);
    assert RunOk(created, events[1..], max);
  }

  lemma KeepsAll(s: State, e: Event)
    requires e.current < |s.threads| && !e.Tick? && (e.SetNice? ==> NICE_MIN <= e.nice <= NICE_MAX)
    ensures forall max: nat | StateOk(s, max) :: StateOk(Step(s, e), max)
  {
    hide StateOk, Step;
    forall max: nat | StateOk(s, max)
      ensures StateOk(Step(s, e), max)
    {
      StepKeeps(s, e, max);
    }
  }

  /** The priority is the one that the thread's CPU time and niceness give. */
  predicate UpToDate(t: Thread) {
    t.priority == Priority(t.recentCpu, t.nice)
  }

  /** The scheduler's globals and the list of all threads. */
  class Scheduler {
    var ticks: nat
    var loadAvg: int
    var threads: seq<Thread>

    ghost function Now(): State
      reads this
    {
      State(ticks, loadAvg, threads)
    }

    constructor ()
      ensures Now() == Boot()
      ensures ticks == 0 && loadAvg == 0 && threads == [Thread(false, 0, 0, 63)]
    {
      ticks := 0;
      loadAvg := FromInt(0);
      threads := [Thread(false, 0, FromInt(0), Priority(FromInt(0), 0))];
    }

    /** The work of a timer tick. */
    method OnTick(current: nat, ready: nat)
      requires current < |threads| && loadAvg >= 0
      modifies this
      ensures Now() == Step(old(Now()), Tick(current, ready))
    {
      Coefficients();
      ticks := ticks + 1;
      if !threads[current].isIdle {
        threads := threads[current := threads[current].(recentCpu := AddWithInt(threads[current].recentCpu, 1))];
      }
      if ticks % TIMER_FREQ == 0 {
        loadAvg := Add(Multiply(MOMENTUM, loadAvg), MultiplyWithInt(DECAY, ready));
        UpdateRecentCpu();
      }
      if ticks % PRI_RECALC_PERIOD == 0 {
        UpdatePriorities();
      }
    }

    method UpdateRecentCpu()
      requires loadAvg >= 0
      modifies this`threads
      ensures threads == Decayed(old(threads), loadAvg)
      ensures |threads| == |old(threads)|
      ensures forall i | 0 <= i < |threads| ::
                var t, t' := old(threads)[i], threads[i];
                t' == t.(recentCpu := t'.recentCpu) && DecaysTo(t.recentCpu, loadAvg, t.nice, t'.recentCpu)
    {
      hide NextRecent, DecaysTo;
      var i := 0;
      while i < |threads|
        invariant 0 <= i <= |threads| == |old(threads)|
        invariant threads[..i] == Decayed(old(threads), loadAvg)[..i] && threads[i..] == old(threads)[i..]
      {
        var t := threads[i];
        assert t == old(threads)[i..][0] == old(threads)[i];
        threads := threads[i := t.(recentCpu := NextRecent(t.recentCpu, loadAvg, t.nice))];
        assert threads[..i + 1] == Decayed(old(threads), loadAvg)[..i] + [Decayed(old(threads), loadAvg)[i]];
        i := i + 1;
      }
      forall j | 0 <= j < |threads|
        ensures DecaysTo(old(threads)[j].recentCpu, loadAvg, old(threads)[j].nice, threads[j].recentCpu)
      {
        RecentAccuracy(old(threads)[j].recentCpu, loadAvg, old(threads)[j].nice);
      }
    }

    method UpdatePriorities()
      modifies this`threads
      ensures threads == RepricedAll(old(threads))
      ensures forall i | 0 <= i < |threads| ::
                var t, t' := old(threads)[i], threads[i];
                t' == t.(priority := t'.priority) && if t.isIdle then t' == t else UpToDate(t')
    {
      hide Priority;
      var i := 0;
      while i < |threads|
        invariant 0 <= i <= |threads| == |old(threads)|
        invariant threads[..i] == RepricedAll(old(threads))[..i] && threads[i..] == old(threads)[i..]
      {
        assert threads[i] == old(threads)[i..][0] == old(threads)[i];
        threads := threads[i := Repriced(threads[i])];
        assert threads[..i + 1] == RepricedAll(old(threads))[..i] + [RepricedAll(old(threads))[i]];
        i := i + 1;
      }
    }

    /** The running thread's niceness changes, and its priority with it: to no more than before if it gets nicer.
        All values stay within their bounds. */
    method SetNiceness(current: nat, nice: int)
      requires current < |threads| && NICE_MIN <= nice <= NICE_MAX
      modifies this`threads
      ensures Now() == Step(old(Now()), SetNice(current, nice))
      ensures |threads| == |old(threads)| && forall i | 0 <= i < |threads| && i != current ::
              threads[i] == old(threads)[i]
      ensures var was, t := old(threads)[current], threads[current];
              && t.(nice := was.nice, priority := was.priority) == was && t.nice == nice
              && (t.isIdle ==> t.priority == was.priority)
              && (!t.isIdle ==> UpToDate(t) && (UpToDate(was) && was.nice <= nice ==> t.priority <= was.priority))
      ensures forall max: nat | old(StateOk(Now(), max)) :: StateOk(Now(), max)
    {
      ghost var s, was := Now(), threads[current];
      if was.nice <= nice {
        PriorityMonotone(was.recentCpu, was.recentCpu, was.nice, nice);
      }
      var t := threads[current].(nice := nice);
      threads := threads[current := if t.isIdle then t else t.(priority := Priority(t.recentCpu, t.nice))];
      KeepsAll(s, SetNice(current, nice));
    }

    /** A new thread inherits its parent's niceness and CPU time, and so its priority if that was up to date.
        All values stay within their bounds. */
    method CreateThread(current: nat)
      requires current < |threads|
      modifies this`threads
      ensures Now() == Step(old(Now()), Create(current))
      ensures |threads| == |old(threads)| + 1 && threads[..|old(threads)|] == old(threads)
      ensures var parent, t := old(threads)[current], threads[|old(threads)|];
              && !t.isIdle && t.nice == parent.nice && t.recentCpu == parent.recentCpu && UpToDate(t)
              && (UpToDate(parent) ==> t.priority == parent.priority)
      ensures forall max: nat | old(StateOk(Now(), max)) :: StateOk(Now(), max)
    {
      ghost var s := Now();
      var nice, recent := threads[current].nice, threads[current].recentCpu;
      threads := threads + [Thread(false, nice, recent, Priority(recent, nice))];
      KeepsAll(s, Create(current));
    }

    /** The running thread becomes the idle thread, the only one, and nothing else changes. */
    method StartIdle(current: nat)
      requires current < |threads|
      modifies this`threads
      ensures Now() == Step(old(Now()), Event.StartIdle(current))
      ensures OneIdle(threads) && threads[current].isIdle && |threads| == |old(threads)|
      ensures forall i | 0 <= i < |threads| :: threads[i].(isIdle := old(threads)[i].isIdle) == old(threads)[i]
      ensures forall max: nat | old(StateOk(Now(), max)) :: StateOk(Now(), max)
    {
      ghost var s := Now();
      threads := Marked(threads, current);
      KeepsAll(s, Event.StartIdle(current));
    }
  }
}
