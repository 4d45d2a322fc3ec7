/**
 The tickless clock as values: what the driver's cells and TMR0 hold, and what each event does to
 them. Time is measured in TMR0 counts; `elapsed` is the true number of counts, which no code can read.
 The driver itself is the class in TimeDriver.dfy, whose methods are proved to take these steps.
 */
module Timebase {
  import opened Common

  const REF_OSC_HZ: nat := 24_000_000
  const TICK_HZ: nat := 1_000
  /** TMR0 runs off the reference oscillator divided by this, and the sleep timer in Doze off it divided by 128. */
  const PRESCALE: nat := 64
  /** TMR0 counts per tick. */
  const PERIOD: nat := 375
  /** TMR0 counts per sleep-timer tick in Doze. */
  const COUNTS_PER_DOZE_TICK: nat := 2

  /** Readings stay below this, so that the tick count fits 64 bits. */
  const HORIZON: nat := 375 * TWO64

  /** A tick is a millisecond, and both ratios are exact; and the horizon is 2^64 ticks. */
  lemma UnitsAreExact()
    ensures PERIOD * PRESCALE * TICK_HZ == REF_OSC_HZ && COUNTS_PER_DOZE_TICK * PRESCALE == 128
    ensures HORIZON / PERIOD == 0x1_0000_0000_0000_0000 && HORIZON % PERIOD == 0
  {
  }

  datatype Clock = Clock(base: nat, lastBoundary: u16, comp1: u16, cntr: u16, elapsed: nat)

  /** Counts since the last boundary, as the 16-bit registers show them. */
  function Since(c: Clock): u16 {
    WrappingSub16(c.cntr, c.lastBoundary)
  }

  /** The time the driver believes in, in counts. */
  function Reading(c: Clock): nat {
    PERIOD * c.base + Since(c)
  }

  /** What `now()` returns, in ticks. */
  function Now(c: Clock): nat {
    c.base + Since(c) / PERIOD
  }

  /** How far the clock runs ahead of real time, in counts. */
  function Drift(c: Clock): int {
    Reading(c) - c.elapsed
  }

  predicate Valid(c: Clock) {
    Reading(c) < HORIZON
  }

  /** The compare is armed for the next boundary, and the counter has not reached it. */
  predicate Armed(c: Clock) {
    Since(c) < PERIOD && c.comp1 == WrappingAdd16(c.lastBoundary, PERIOD)
  }

  /** `n` counts pass on a running TMR0. */
  function Elapse(c: Clock, n: nat): Clock {
    c.(cntr := (c.cntr + n) % TWO16, elapsed := c.elapsed + n)
  }

  /** The freshly armed state that reads `reading` while the counter shows `cntr`. */
  function At(reading: nat, cntr: u16, elapsed: nat): Clock {
    var boundary := WrappingSub16(cntr, reading % PERIOD);
    Clock(reading / PERIOD, boundary, WrappingAdd16(boundary, PERIOD), cntr, elapsed)
  }

  /**
   What can happen to the clock.
   - Pass: counts pass and no one writes the clock.
   - Tick: the interrupt handler runs, `late` counts before its first look at the counter and
     `work` counts from there to its last one. It may come on time, late or spuriously.
   - Doze: the chip sleeps. `down` counts pass between the last look at TMR0 and the start of the
     sleep timer, which then runs for `asleep` counts until it is read; TMR0, restarted meanwhile,
     shows `start` when it is sampled `up` counts before that read and `work` counts before the
     resync's last look at it.
   */
  datatype Event =
    | Pass(n: nat)
    | Tick(late: nat, work: nat)
    | Doze(down: nat, asleep: nat, start: nat, up: nat, work: nat)

  /** What the 32-bit sleep timer shows after `asleep` counts. */
  function Measured(asleep: nat): nat {
    asleep / COUNTS_PER_DOZE_TICK % TWO32
  }

  /** The reading after `e`. */
  function Target(c: Clock, e: Event): nat {
    match e
    case Pass(n) => Reading(c) + n
    case Tick(late, work) => Reading(c) + late + work
    case Doze(_, asleep, _, _, work) =>
      Reading(c) + COUNTS_PER_DOZE_TICK * Measured(asleep) + COUNTS_PER_DOZE_TICK / 2 + work
  }

  /** The documented limits: less than one counter wrap between boundary updates, and a tick count
      that fits 64 bits. */
  predicate Admissible(c: Clock, e: Event) {
    Target(c, e) < HORIZON &&
    match e
    case Pass(n) => Since(c) + n < TWO16
    case Tick(late, work) => Since(c) + late < TWO16
    case Doze(_, asleep, _, up, work) => up <= asleep && up <= work
  }

  function Step(c: Clock, e: Event): Clock {
    match e
    case Pass(n) => Elapse(c, n)
    case Tick(late, work) => At(Target(c, e), (c.cntr + late + work) % TWO16, c.elapsed + late + work)
    case Doze(down, asleep, start, up, work) =>
      At(Target(c, e), (start + work) % TWO16, c.elapsed + down + SaturatingSub(asleep + work, up))
  }

  predicate AdmissibleRun(c: Clock, es: seq<Event>)
    decreases es
  {
    es == [] || (Admissible(c, es[0]) && AdmissibleRun(Step(c, es[0]), es[1..]))
  }

  function Run(c: Clock, es: seq<Event>): Clock
    decreases es
  {
    if es == [] then c else Run(Step(c, es[0]), es[1..])
  }

  // ---- Facts about one state or one step ----

  lemma AtReads(reading: nat, cntr: u16, elapsed: nat)
    ensures Reading(At(reading, cntr, elapsed)) == reading && Armed(At(reading, cntr, elapsed))
  {
  }

  /** The 16-bit difference measures a passage of `n` counts exactly when no wrap is crossed. */
  lemma PassMeasuredIffNoWrap(c: Clock, n: nat)
    ensures Reading(Elapse(c, n)) == Reading(c) + n <==> Since(c) + n < TWO16
    ensures Since(Elapse(c, n)) == (Since(c) + n) % TWO16
  {
  }

  lemma ModPlusMultiple(a: int, k: int)
    ensures (a + k * TWO16) % TWO16 == a % TWO16
  {
  }

  lemma ModSum(a: int, n: int)
    ensures (a % TWO16 + n) % TWO16 == (a + n) % TWO16
  {
  }

  lemma ElapseAdds(c: Clock, m: nat, n: nat)
    ensures Elapse(Elapse(c, m), n) == Elapse(c, m + n)
  {
  }

  /** Moving the boundary forward by counts that have passed takes them off the distance to it. */
  lemma BoundaryMoves(c: Clock, counts: u16)
    requires counts <= Since(c)
    ensures Since(c.(lastBoundary := WrappingAdd16(c.lastBoundary, counts))) == Since(c) - counts
  {
  }

  /** A valid armed state is the one its reading, counter and time determine. */
  lemma ArmedIsAt(c: Clock)
    requires Armed(c)
    ensures c == At(Reading(c), c.cntr, c.elapsed)
  {
  }

  /** `now()` is the reading in whole ticks. */
  lemma NowIsReading(c: Clock)
    ensures Now(c) == Reading(c) / PERIOD
  {
  }

  lemma StepReads(c: Clock, e: Event)
    requires Valid(c) && Admissible(c, e)
    ensures Valid(Step(c, e)) && Reading(Step(c, e)) == Target(c, e)
    ensures !e.Pass? ==> Armed(Step(c, e))
  {
    match e
    case Pass(n) => PassMeasuredIffNoWrap(c, n);
    case Tick(late, work) => AtReads(Target(c, e), (c.cntr + late + work) % TWO16, c.elapsed + late + work);
    case Doze(down, asleep, start, up, work) =>
      AtReads(Target(c, e), (start + work) % TWO16, c.elapsed + down + SaturatingSub(asleep + work, up));
  }

  /** An armed compare matches after exactly the counts left to the next boundary, and no sooner:
      the counter never has to wrap before the next interrupt. */
  lemma CompareMatchesAtNextBoundary(c: Clock, k: nat)
    requires Armed(c)
    ensures var left := PERIOD * (c.base + 1) - Reading(c);
            0 < left <= PERIOD &&
            (k < left ==> Elapse(c, k).cntr != c.comp1) &&
            (k == left ==> Elapse(c, k).cntr == c.comp1)
  {
  }

  // ---- Facts about whole runs ----

  function Sleeps(es: seq<Event>): nat {
    if es == [] then 0 else (if es[0].Doze? then 1 else 0) + Sleeps(es[1..])
  }

  /** How many times the sleep timer wrapped, over all sleeps. */
  function TimerWraps(es: seq<Event>): nat {
    if es == [] then 0
    else (if es[0].Doze? then es[0].asleep / (COUNTS_PER_DOZE_TICK * TWO32) else 0) + TimerWraps(es[1..])
  }

  /** Counts the sleeps of `es` count twice (the resync's two samples are apart) minus those they
      lose (between the last look at TMR0 and the start of the sleep timer). */
  function Gaps(es: seq<Event>): int {
    if es == [] then 0
    else (if es[0].Doze? then es[0].up - es[0].down else 0) + Gaps(es[1..])
  }

  lemma DozeDrift(c: Clock, doze: Event)
    requires Valid(c) && Admissible(c, doze) && doze.Doze?
    ensures Drift(Step(c, doze)) == Drift(c) + doze.up - doze.down + 1 - doze.asleep % COUNTS_PER_DOZE_TICK
                                    - COUNTS_PER_DOZE_TICK * TWO32 * (doze.asleep / (COUNTS_PER_DOZE_TICK * TWO32))
  {
    StepReads(c, doze);
    var whole := doze.asleep / COUNTS_PER_DOZE_TICK;
    assert whole == TWO32 * (whole / TWO32) + whole % TWO32;
    assert whole / TWO32 == doze.asleep / (COUNTS_PER_DOZE_TICK * TWO32);
  }

  /** A sleep keeps time, up to its gaps and a count of rounding, exactly when the sleep timer does
      not wrap during it. What that means for the deadline slept for is in TimeDriver.dfy. */
  lemma SleepKeepsTimeIffNoWrap(c: Clock, doze: Event)
    requires Valid(c) && Admissible(c, doze) && doze.Doze?
    ensures 0 <= Drift(Step(c, doze)) - (Drift(c) + doze.up - doze.down) <= 1
            <==> doze.asleep < COUNTS_PER_DOZE_TICK * TWO32
  {
    DozeDrift(c, doze);
    if COUNTS_PER_DOZE_TICK * TWO32 <= doze.asleep {
      assert 1 <= doze.asleep / (COUNTS_PER_DOZE_TICK * TWO32);
    }
  }

  /** Sleeps apart, the clock never gains or loses a count. Each sleep adds its own gaps and at most
      one count of rounding, and falls behind by a whole turn of the sleep timer whenever that wraps. */
  lemma {:induction false} RunDrift(c: Clock, es: seq<Event>)
    requires Valid(c) && AdmissibleRun(c, es)
    ensures Valid(Run(c, es))
    ensures var bias := Gaps(es) - COUNTS_PER_DOZE_TICK * TWO32 * TimerWraps(es);
            Drift(c) + bias <= Drift(Run(c, es)) <= Drift(c) + bias + Sleeps(es)
    decreases es
  {
    if es == [] {
    } else {
      StepReads(c, es[0]);
      if es[0].Doze? {
        DozeDrift(c, es[0]);
      }
      RunDrift(Step(c, es[0]), es[1..]);
    }
  }

  lemma {:induction false} SleepsExtend(es: seq<Event>, e: Event)
    ensures Sleeps([]) == 0
    ensures Sleeps(es + [e]) == Sleeps(es) + if e.Doze? then 1 else 0
  {
    if es == [] {
      assert [] + [e] == [e];
    } else {
      assert (es + [e])[1..] == es[1..] + [e];
      SleepsExtend(es[1..], e);
    }
  }

  lemma {:induction false} RunExtends(c: Clock, es: seq<Event>, e: Event)
    requires AdmissibleRun(c, es) && Admissible(Run(c, es), e)
    ensures AdmissibleRun(c, es + [e]) && Run(c, es + [e]) == Step(Run(c, es), e)
    decreases es
  {
    if es == [] {
      assert AdmissibleRun(Step(c, e), []);
    } else {
      RunExtends(Step(c, es[0]), es[1..], e);
      assert (es + [e])[1..] == es[1..] + [e];
    }
  }

  /** Time never runs backwards, sleeps included. */
  lemma {:induction false} RunMonotone(c: Clock, es: seq<Event>)
    requires Valid(c) && AdmissibleRun(c, es)
    ensures Reading(c) <= Reading(Run(c, es)) && Now(c) <= Now(Run(c, es))
    decreases es
  {
    if es == [] {
    } else {
      StepReads(c, es[0]);
      RunMonotone(Step(c, es[0]), es[1..]);
    }
    NowIsReading(c);
    NowIsReading(Run(c, es));
  }

  /** The state `init` leaves behind: TMR0 reset, armed for the first tick. */
  function Initial(): Clock {
    Clock(0, 0, PERIOD, 0, 0)
  }

  ghost predicate Exact(c: Clock) {
    c.cntr == c.elapsed % TWO16 && c.lastBoundary == PERIOD * c.base % TWO16 && Reading(c) == c.elapsed
  }

  lemma TickKeepsExact(c: Clock, late: nat, work: nat)
    requires Valid(c) && Exact(c) && Admissible(c, Tick(late, work))
    ensures Exact(Step(c, Tick(late, work)))
  {
    var e := Tick(late, work);
    var c' := Step(c, e);
    StepReads(c, e);
    ModSum(c.elapsed, late + work);
    assert c'.elapsed == PERIOD * c'.base + c'.elapsed % PERIOD;
    // Stepping back from the counter to the boundary is stepping back from real time, mod 2^16.
    var q := c'.elapsed / TWO16;
    if c'.elapsed % PERIOD <= c'.cntr {
      assert PERIOD * c'.base == c'.lastBoundary + q * TWO16;
      ModPlusMultiple(c'.lastBoundary, q);
    } else {
      assert PERIOD * c'.base == c'.lastBoundary + (q - 1) * TWO16;
      ModPlusMultiple(c'.lastBoundary, q - 1);
    }
  }

  lemma {:induction false} RunKeepsExact(c: Clock, es: seq<Event>)
    requires Valid(c) && Exact(c) && AdmissibleRun(c, es) && Sleeps(es) == 0
    ensures Valid(Run(c, es)) && Exact(Run(c, es))
    decreases es
  {
    if es == [] {
    } else {
      StepReads(c, es[0]);
      match es[0] {
        case Pass(n) => ModSum(c.elapsed, n);
        case Tick(late, work) => TickKeepsExact(c, late, work);
      }
      RunKeepsExact(Step(c, es[0]), es[1..]);
    }
  }

  /** Without sleeps, in every run from start-up `now()` is real time in whole ticks and
      `last_boundary` is the true count of boundary `base`, modulo the counter's width. */
  lemma ClockRefinesRealTime(es: seq<Event>)
    requires AdmissibleRun(Initial(), es) && Sleeps(es) == 0
    ensures var c := Run(Initial(), es);
            Now(c) == c.elapsed / PERIOD && c.lastBoundary == PERIOD * c.base % TWO16 && c.cntr == c.elapsed % TWO16
  {
    RunKeepsExact(Initial(), es);
    NowIsReading(Run(Initial(), es));
  }
}
