/**
 The `embassy-time` driver on TMR0. The class holds the driver's cells next to the registers it
 reads and writes. Time passes before every register access, by an amount the environment picks, so
 a proof about a method covers every timing within the stated limits.
 */
module TimeDriver {
  import opened Common
  import opened Timebase

  /** A queued timer: at tick `at`, wake `waker`. */
  datatype Timer = Timer(at: nat, waker: nat)

  /** Room below HORIZON for what one critical section can add to the reading: its own counts, and
      the most a sleep timer can measure. */
  const MARGIN: nat := 0x4_0000_0000

  // ---- The cached deadline ----

  /** `alarm` is no later than any queued deadline, and absent only when none is finite. */
  ghost predicate Bounds(alarm: Option<nat>, queue: set<Timer>) {
    match alarm
    case None => forall t :: t in queue ==> t.at == U64_MAX
    case Some(a) => forall t :: t in queue ==> a <= t.at
  }

  /** `alarm` is the earliest finite deadline, and absent exactly when there is none. */
  ghost predicate Earliest(alarm: Option<nat>, queue: set<Timer>) {
    && Bounds(alarm, queue)
    && (alarm.Some? ==> alarm.value < U64_MAX && exists t :: t in queue && t.at == alarm.value)
  }

  function Due(queue: set<Timer>, now: nat): set<Timer> {
    set t | t in queue && t.at <= now
  }

  function Wakers(timers: set<Timer>): set<nat> {
    set t | t in timers :: t.waker
  }

  // ---- The Doze timeout ----

  /** Counts from `since` counts after boundary `base` to the deadline, as the driver's saturating 64-bit
      steps give them. */
  function CountsUntil(alarm: nat, base: nat, since: nat): nat {
    SaturatingSub(Min(SaturatingSub(alarm, base) * PERIOD, U64_MAX), since)
  }

  /** The sleep-timer timeout for a deadline, clamped to 32 bits. */
  function DozeTimeout(alarm: nat, base: nat, since: nat): nat {
    Min(CountsUntil(alarm, base, since) / COUNTS_PER_DOZE_TICK, U32_MAX)
  }

  /** A programmed timeout never ends after the deadline, whatever saturates or clamps; and it is
      less than one sleep-timer tick early unless something does. */
  lemma DozeTimeoutEndsAtDeadline(c: Clock, alarm: nat)
    requires alarm <= U64_MAX
    ensures var timeout := DozeTimeout(alarm, c.base, Since(c));
            var ends := Reading(c) + COUNTS_PER_DOZE_TICK * timeout;
            && (timeout > 0 ==> ends <= PERIOD * alarm)
            && (timeout == 0 ==> PERIOD * alarm < Reading(c) + COUNTS_PER_DOZE_TICK)
            && (timeout < U32_MAX && PERIOD * SaturatingSub(alarm, c.base) <= U64_MAX ==>
                  PERIOD * alarm < ends + COUNTS_PER_DOZE_TICK)
  {
  }

  /** Deciding to sleep 20 ticks or more ahead leaves a positive timeout, as long as fewer than 19 ticks
      pass before it is computed. */
  lemma DozeTimeoutPositive(c: Clock, alarm: nat, wait: nat)
    requires Valid(c) && Since(c) + wait < TWO16 && wait < 19 * PERIOD
    requires alarm <= U64_MAX && SaturatingSub(alarm, Now(c)) >= 20
    ensures DozeTimeout(alarm, c.base, Since(Elapse(c, wait))) > 0
  {
    PassMeasuredIffNoWrap(c, wait);
    DozeTimeoutEndsAtDeadline(Elapse(c, wait), alarm);
    NowIsReading(c);
    assert Reading(c) < PERIOD * (Now(c) + 1) <= PERIOD * (alarm - 19);
  }

  /** The deadline is near enough to sleep for: a sleep programmed for it, and the `wakeUp` counts the chip
      takes to get going after that, fit the sleep timer. */
  predicate WithinReach(alarm: nat, base: nat, since: nat, wakeUp: nat) {
    || wakeUp < COUNTS_PER_DOZE_TICK
    || CountsUntil(alarm, base, since) + wakeUp / COUNTS_PER_DOZE_TICK * COUNTS_PER_DOZE_TICK
       < COUNTS_PER_DOZE_TICK * TWO32
  }

  /** However long the wake-up, the sleep timer wraps exactly when the deadline is out of reach. A timeout
      that is clamped always is, and so is one whose distance to the clamp the wake-up uses up. */
  lemma TimerWrapsIffOutOfReach(alarm: nat, base: nat, since: nat, wakeUp: nat)
    ensures COUNTS_PER_DOZE_TICK * TWO32 <= COUNTS_PER_DOZE_TICK * DozeTimeout(alarm, base, since) + wakeUp
            <==> !WithinReach(alarm, base, since, wakeUp)
  {
  }

  /** So a sleep keeps time exactly when its deadline was within reach when its timeout was computed, in
      state `armed`. */
  lemma SleepKeepsTimeIffWithinReach(armed: Clock, c: Clock, alarm: nat, wakeUp: nat, doze: Event)
    requires Valid(c) && Admissible(c, doze) && doze.Doze?
    requires doze.asleep == COUNTS_PER_DOZE_TICK * DozeTimeout(alarm, armed.base, Since(armed)) + wakeUp
    ensures 0 <= Drift(Step(c, doze)) - (Drift(c) + doze.up - doze.down) <= 1
            <==> WithinReach(alarm, armed.base, Since(armed), wakeUp)
  {
    SleepKeepsTimeIffNoWrap(c, doze);
    TimerWrapsIffOutOfReach(alarm, armed.base, Since(armed), wakeUp);
  }

  /** For one, with a lone timer 2^32 ticks away from start-up, the timeout is clamped: 2^33 counts asleep,
      and on waking up the clock has not moved. */
  lemma ClampedSleepLosesTime()
    ensures var c, timeout := Initial(), DozeTimeout(TWO32, 0, 0);
            var doze := Doze(0, COUNTS_PER_DOZE_TICK * timeout + COUNTS_PER_DOZE_TICK, 0, 0, 0);
            && timeout == U32_MAX && Admissible(c, doze) && Timebase.Now(Step(c, doze)) == 0
            && Step(c, doze).elapsed == COUNTS_PER_DOZE_TICK * TWO32
  {
  }

  /** Nor does it if the timeout is one short of the clamp and waking up takes two sleep-timer ticks. */
  lemma UnclampedSleepLosesTime()
    ensures var alarm, since := 22_906_493, 287;
            var c, timeout := At(since, 0, 0), DozeTimeout(alarm, 0, since);
            var doze := Doze(0, COUNTS_PER_DOZE_TICK * timeout + 2 * COUNTS_PER_DOZE_TICK, 0, 0, 0);
            && c.base == 0 && Since(c) == since && timeout == U32_MAX - 1
            && CountsUntil(alarm, 0, since) / COUNTS_PER_DOZE_TICK < U32_MAX
            && Admissible(c, doze) && Timebase.Now(Step(c, doze)) == 0
            && Step(c, doze).elapsed == COUNTS_PER_DOZE_TICK * TWO32
  {
  }

  /** The resync's split 32-bit arithmetic adds up to the time slept, without overflow. */
  lemma ResyncConserves(base: nat, dozeTicks: nat, since: nat)
    requires dozeTicks < TWO32 && since < TWO16
    ensures var rest := (dozeTicks % PERIOD) * COUNTS_PER_DOZE_TICK + COUNTS_PER_DOZE_TICK / 2 + since;
            var ticks := (dozeTicks / PERIOD) * COUNTS_PER_DOZE_TICK + rest / PERIOD;
            && rest < TWO32
            && PERIOD * (base + ticks) + rest % PERIOD
               == PERIOD * base + since + COUNTS_PER_DOZE_TICK * dozeTicks + COUNTS_PER_DOZE_TICK / 2
  {
  }

  /** Together: a deadline 20 ticks ahead when checked gives a positive timeout that ends by it. */
  lemma DozeTimeoutIsSafe(checked: Clock, c: Clock, alarm: nat)
    requires Valid(checked) && checked.elapsed <= c.elapsed < checked.elapsed + PERIOD
    requires c == Elapse(checked, c.elapsed - checked.elapsed)
    requires Since(checked) + (c.elapsed - checked.elapsed) < TWO16
    requires alarm <= U64_MAX && SaturatingSub(alarm, Now(checked)) >= 20
    ensures 0 < DozeTimeout(alarm, c.base, Since(c)) <= U32_MAX && Now(checked) + 20 <= alarm
    ensures Reading(c) + COUNTS_PER_DOZE_TICK * DozeTimeout(alarm, c.base, Since(c)) <= PERIOD * alarm
  {
    DozeTimeoutPositive(checked, alarm, c.elapsed - checked.elapsed);
    DozeTimeoutEndsAtDeadline(c, alarm);
  }

  // ---- Catching up with the counter ----

  /** `c` is `start` with some counts passed and some elapsed periods added to `base`. */
  ghost predicate Chasing(start: Clock, c: Clock) {
    && Valid(c) && c.elapsed >= start.elapsed
    && Since(c) <= Since(start)
    && Reading(c) == Reading(start) + (c.elapsed - start.elapsed)
    && Reading(c) + PERIOD * Since(c) <= Reading(start) + PERIOD * Since(start)
    && c.cntr == (start.cntr + (c.elapsed - start.elapsed)) % TWO16
  }

  /** Counts pass and the compare is written: the clock reads that much more. */
  lemma ChaseWaits(start: Clock, head: Clock, c: Clock)
    requires Chasing(start, head) && head.elapsed <= c.elapsed < head.elapsed + PERIOD
    requires Reading(start) + PERIOD * (Since(start) + 1) < HORIZON
    requires c == Elapse(head, c.elapsed - head.elapsed).(comp1 := WrappingAdd16(head.lastBoundary, PERIOD))
    requires Since(c) == Since(head) + (c.elapsed - head.elapsed)
    ensures Valid(c) && Reading(c) == Reading(start) + (c.elapsed - start.elapsed)
    ensures c.cntr == (start.cntr + (c.elapsed - start.elapsed)) % TWO16
    ensures Reading(c) <= Reading(start) + PERIOD * (Since(start) + 1)
  {
    ModSum(start.cntr + (head.elapsed - start.elapsed), c.elapsed - head.elapsed);
  }

  /** `c` with one period more counted. */
  function CountedOne(c: Clock): Clock {
    c.(base := (c.base + 1) % TWO64, lastBoundary := WrappingAdd16(c.lastBoundary, PERIOD))
  }

  lemma PeriodCounted(c: Clock)
    requires Valid(c) && PERIOD <= Since(c)
    ensures CountedOne(c).base == c.base + 1 && Since(CountedOne(c)) == Since(c) - PERIOD
    ensures Valid(CountedOne(c)) && Reading(CountedOne(c)) == Reading(c)
  {
    BoundaryMoves(c, PERIOD);
    assert c.base + 1 < TWO64;
  }

  lemma StillBehind(reading: nat, since: nat, passed: nat)
    requires passed < PERIOD <= since + passed
    ensures reading + passed + PERIOD * (since + passed - PERIOD) <= reading + PERIOD * since
  {
  }

  /** If that took the counter past the boundary just armed, counting that period gets closer to it:
      fewer counts passed than the period holds. */
  lemma ChaseCounts(start: Clock, head: Clock, c: Clock)
    requires Chasing(start, head) && head.elapsed <= c.elapsed < head.elapsed + PERIOD
    requires Valid(c) && Reading(c) == Reading(start) + (c.elapsed - start.elapsed)
    requires c.cntr == (start.cntr + (c.elapsed - start.elapsed)) % TWO16
    requires Since(c) == Since(head) + (c.elapsed - head.elapsed) && PERIOD <= Since(c)
    ensures Chasing(start, CountedOne(c)) && Since(CountedOne(c)) < Since(head)
  {
    PeriodCounted(c);
    StillBehind(Reading(head), Since(head), c.elapsed - head.elapsed);
  }

  /** The interrupt handler as a whole is the Tick step of the clock. */
  lemma TickTaken(start: Clock, sampled: Clock, c: Clock) returns (work: nat)
    requires Valid(start) && start.elapsed <= sampled.elapsed <= c.elapsed
    requires Since(start) + (sampled.elapsed - start.elapsed) < TWO16
    requires sampled.cntr == (start.cntr + (sampled.elapsed - start.elapsed)) % TWO16
    requires Reading(c) == Reading(start) + (c.elapsed - start.elapsed) && Reading(c) < HORIZON
    requires c == At(Reading(c), c.cntr, c.elapsed)
    requires c.cntr == (sampled.cntr + (c.elapsed - sampled.elapsed)) % TWO16
    ensures var tick := Tick(sampled.elapsed - start.elapsed, work);
            Admissible(start, tick) && c == Step(start, tick)
  {
    work := c.elapsed - sampled.elapsed;
    ModSum(start.cntr + (sampled.elapsed - start.elapsed), work);
  }

  /** `c` with the whole periods since the boundary divided out at once, as the interrupt handler does first. */
  function Counted(c: Clock): Clock {
    var periods := Since(c) / PERIOD;
    c.(base := (c.base + periods) % TWO64, lastBoundary := WrappingAdd16(c.lastBoundary, periods * PERIOD))
  }

  lemma PeriodsCounted(c: Clock)
    requires Valid(c)
    ensures Valid(Counted(c)) && Reading(Counted(c)) == Reading(c) && Since(Counted(c)) == Since(c) % PERIOD
  {
    var periods := Since(c) / PERIOD;
    BoundaryMoves(c, periods * PERIOD);
    assert c.base + periods < TWO64;
  }

  /** Where the resync puts the boundary makes the clock read the time before the sleep, plus what
      the sleep timer measured, plus the counts since TMR0 was sampled at `value`. */
  lemma PhasePlaced(before: Clock, dozeTicks: nat, since: u16, value: u16, up: nat, c: Clock)
    requires Valid(before) && since == Since(before) && dozeTicks < TWO32 && up < PERIOD
    requires Reading(before) + COUNTS_PER_DOZE_TICK * dozeTicks + 1 + up < HORIZON
    requires var rest := (dozeTicks % PERIOD) * COUNTS_PER_DOZE_TICK + COUNTS_PER_DOZE_TICK / 2 + since;
             var ticks := (dozeTicks / PERIOD) * COUNTS_PER_DOZE_TICK + rest / PERIOD;
             && c.base == (before.base + ticks) % TWO64
             && c.lastBoundary == WrappingSub16(value, rest % PERIOD)
             && c.cntr == (value + up) % TWO16
    ensures Valid(c) && Since(c) < 2 * PERIOD
    ensures Reading(c) == Reading(before) + COUNTS_PER_DOZE_TICK * dozeTicks + COUNTS_PER_DOZE_TICK / 2 + up
  {
    var rest := (dozeTicks % PERIOD) * COUNTS_PER_DOZE_TICK + COUNTS_PER_DOZE_TICK / 2 + since;
    var ticks := (dozeTicks / PERIOD) * COUNTS_PER_DOZE_TICK + rest / PERIOD;
    ResyncConserves(before.base, dozeTicks, since);
    assert c.base == before.base + ticks;
    PassMeasuredIffNoWrap(c.(cntr := value), up);
  }

  /** The resync as a whole is the Doze step of the clock. */
  lemma SleepMeasured(before: Clock, sleepStart: nat, dozeTicks: nat, value: u16, up: nat, placed: Clock, c: Clock)
    returns (doze: Event)
    requires Valid(before) && before.elapsed <= sleepStart <= placed.elapsed - up
    requires dozeTicks == Measured(placed.elapsed - sleepStart)
    requires placed.cntr == (value + up) % TWO16
    requires Reading(placed)
             == Reading(before) + COUNTS_PER_DOZE_TICK * dozeTicks + COUNTS_PER_DOZE_TICK / 2 + up
    requires placed.elapsed <= c.elapsed && Reading(c) < HORIZON
    requires Reading(c) == Reading(placed) + (c.elapsed - placed.elapsed) && c == At(Reading(c), c.cntr, c.elapsed)
    requires c.cntr == (placed.cntr + (c.elapsed - placed.elapsed)) % TWO16
    ensures doze.Doze? && Admissible(before, doze) && c == Step(before, doze)
    ensures doze.down == sleepStart - before.elapsed && doze.asleep == placed.elapsed - sleepStart
  {
    var asleep := placed.elapsed - sleepStart;
    var work := c.elapsed - placed.elapsed;
    doze := Doze(sleepStart - before.elapsed, asleep, value, up, up + work);
    ModSum(value + up, work);
    assert Target(before, doze) == Reading(placed) + work;
  }

  /** Sampling the counter after `n` counts and dividing out the periods loses none of them. */
  lemma PeriodsCountedAfter(before: Clock, n: nat)
    requires Valid(before) && Since(before) + n < TWO16 && Reading(before) + n < HORIZON
    ensures var c := Counted(Elapse(before, n));
            Valid(c) && Reading(c) == Reading(before) + n && Since(c) < PERIOD
  {
    PassMeasuredIffNoWrap(before, n);
    PeriodsCounted(Elapse(before, n));
  }

  /** Counts before and after a compare write add up. */
  lemma DelaysAdd(before: Clock, m: nat, n: nat, next: u16)
    requires Since(before) + m + n < TWO16
    ensures var after := Elapse(Elapse(before, m).(comp1 := next), n);
            after == Elapse(before, m + n).(comp1 := next) && Since(after) == Since(before) + m + n
  {
    ElapseAdds(before, m, n);
    PassMeasuredIffNoWrap(before, m + n);
  }

  // ---- The driver ----

  class TmrDriver {
    // The driver's cells.
    var base: nat
    var lastBoundary: u16
    var nextAlarm: Option<nat>
    var queue: set<Timer>
    var started: bool
    // TMR0 and the CRM sleep timer, which restarted at true time `sleepStart`.
    var comp1: u16
    var cntr: u16
    var running: bool
    var elapsed: nat
    var sleepStart: nat
    /** The most counts that pass between two register accesses of one critical section. */
    const pace: nat

    function State(): Clock
      reads this
    {
      Clock(base, lastBoundary, comp1, cntr, elapsed)
    }

    ghost predicate Ok()
      reads this
    {
      && Valid(State()) && 2 * pace < PERIOD
      && Bounds(nextAlarm, queue)
      && (nextAlarm.Some? ==> nextAlarm.value <= U64_MAX)
      && forall t :: t in queue ==> t.at <= U64_MAX
    }

    /** `n` more register accesses stay within one counter wrap of the last boundary, and a critical
        section after them within the 64-bit tick count. */
    predicate InTime(n: nat)
      reads this
    {
      running && Since(State()) + n * pace < TWO16 && Reading(State()) + n * pace + MARGIN < HORIZON
    }

    /** The driver as it is in memory before `init`; TMR0 holds anything. */
    constructor (pace: nat, comp1: u16, cntr: u16)
      requires 2 * pace < PERIOD
      ensures Ok() && !started && !running && base == 0 && queue == {} && this.pace == pace
    {
      base, lastBoundary, nextAlarm, queue, started := 0, 0, None, {}, false;
      this.comp1, this.cntr, running, elapsed, sleepStart := comp1, cntr, false, 0, 0;
      this.pace := pace;
    }

    /** Let up to `limit` counts pass. */
    method Delay(limit: nat)
      modifies `cntr, `elapsed
      ensures old(elapsed) <= elapsed <= old(elapsed) + limit
      ensures State() == if running then Elapse(old(State()), elapsed - old(elapsed))
                         else old(State()).(elapsed := elapsed)
    {
      var n: nat :| n <= limit;
      elapsed := elapsed + n;
      if running {
        cntr := (cntr + n) % TWO16;
      }
    }

    method ReadCntr() returns (value: u16)
      modifies `cntr, `elapsed
      ensures old(elapsed) <= elapsed <= old(elapsed) + pace
      ensures State() == if running then Elapse(old(State()), elapsed - old(elapsed))
                         else old(State()).(elapsed := elapsed)
      ensures value == cntr
    {
      Delay(pace);
      value := cntr;
    }

    method Now() returns (t: nat)
      requires Ok() && InTime(1)
      modifies `cntr, `elapsed
      ensures Ok() && old(elapsed) <= elapsed <= old(elapsed) + pace
      ensures State() == Elapse(old(State()), elapsed - old(elapsed))
      ensures Reading(State()) == Reading(old(State())) + (elapsed - old(elapsed))
      ensures t == Reading(State()) / PERIOD
    {
      var boundary := lastBoundary;
      var b := base;
      ghost var before := State();
      var value := ReadCntr();
      PassMeasuredIffNoWrap(before, elapsed - before.elapsed);
      NowIsReading(State());
      var since := WrappingSub16(value, boundary);
      t := b + since / PERIOD;
    }

    method ScheduleWake(at: nat, waker: nat)
      requires Ok() && at <= U64_MAX
      modifies `queue, `nextAlarm
      ensures Ok() && queue == old(queue) + {Timer(at, waker)}
      ensures nextAlarm == Some(if old(nextAlarm).Some? then Min(old(nextAlarm).value, at) else at)
    {
      queue := queue + {Timer(at, waker)};
      nextAlarm := Some(if nextAlarm.Some? then Min(nextAlarm.value, at) else at);
    }

    method TicksUntilNextWake() returns (ticks: Option<nat>)
      requires Ok() && InTime(1)
      modifies `cntr, `elapsed
      ensures Ok() && old(elapsed) <= elapsed <= old(elapsed) + pace
      ensures State() == Elapse(old(State()), elapsed - old(elapsed))
      ensures Reading(State()) == Reading(old(State())) + (elapsed - old(elapsed))
      ensures ticks.Some? == nextAlarm.Some?
      ensures ticks.Some? ==> ticks.value == SaturatingSub(nextAlarm.value, Timebase.Now(State()))
    {
      if nextAlarm.None? {
        assert Elapse(State(), 0) == State();
        return None;
      }
      var now := Now();
      NowIsReading(State());
      ticks := Some(SaturatingSub(nextAlarm.value, now));
    }

    /** Counts since the last boundary. */
    method CountsBeforeSleep() returns (counts: u16)
      requires Ok() && InTime(1)
      modifies `cntr, `elapsed
      ensures Ok() && old(elapsed) <= elapsed <= old(elapsed) + pace
      ensures State() == Elapse(old(State()), elapsed - old(elapsed))
      ensures Reading(State()) == Reading(old(State())) + (elapsed - old(elapsed))
      ensures counts == Since(State())
    {
      ghost var before := State();
      var value := ReadCntr();
      PassMeasuredIffNoWrap(before, elapsed - before.elapsed);
      counts := WrappingSub16(value, lastBoundary);
    }

    method DozeTicksUntilNextWake() returns (timeout: Option<nat>)
      requires Ok() && InTime(1)
      modifies `cntr, `elapsed
      ensures Ok() && old(elapsed) <= elapsed <= old(elapsed) + pace
      ensures State() == Elapse(old(State()), elapsed - old(elapsed))
      ensures Reading(State()) == Reading(old(State())) + (elapsed - old(elapsed))
      ensures timeout.Some? == nextAlarm.Some?
      ensures timeout.Some? ==> timeout.value == DozeTimeout(nextAlarm.value, base, Since(State()))
    {
      if nextAlarm.None? {
        assert Elapse(State(), 0) == State();
        return None;
      }
      var ticks := SaturatingSub(nextAlarm.value, base);
      var since := CountsBeforeSleep();
      var counts := SaturatingSub(Min(ticks * PERIOD, U64_MAX), since);
      timeout := Some(Min(counts / COUNTS_PER_DOZE_TICK, U32_MAX));
    }

    /** One compare write and the counter read after it. */
    method WriteCompare(next: u16) returns (since: u16)
      requires Valid(State()) && running && Since(State()) + 2 * pace < TWO16
      modifies `comp1, `cntr, `elapsed
      ensures old(elapsed) <= elapsed <= old(elapsed) + 2 * pace
      ensures State() == Elapse(old(State()), elapsed - old(elapsed)).(comp1 := next)
      ensures since == Since(State()) == Since(old(State())) + (elapsed - old(elapsed))
    {
      ghost var before := State();
      Delay(pace);
      comp1 := next;
      ghost var m := elapsed - before.elapsed;
      var value := ReadCntr();
      DelaysAdd(before, m, elapsed - before.elapsed - m, next);
      since := WrappingSub16(value, lastBoundary);
    }

    /** One turn of arming the compare: either it is armed in time, or the period it was meant for has passed
        and is counted. */
    method ArmOnce(ghost start: Clock) returns (armed: bool)
      requires Chasing(start, State()) && 2 * pace < PERIOD && running && Since(State()) + 2 * pace < TWO16
      requires Reading(start) + PERIOD * (Since(start) + 1) < HORIZON
      modifies `base, `lastBoundary, `comp1, `cntr, `elapsed
      ensures !armed ==> Chasing(start, State()) && Since(State()) < Since(old(State()))
      ensures armed ==> elapsed >= start.elapsed && State() == At(Reading(State()), cntr, elapsed)
      ensures armed ==> Valid(State()) && Armed(State())
      ensures armed ==> Reading(State()) == Reading(start) + (elapsed - start.elapsed)
      ensures armed ==> cntr == (start.cntr + (elapsed - start.elapsed)) % TWO16
      ensures armed ==> Reading(State()) <= Reading(start) + PERIOD * (Since(start) + 1)
    {
      ghost var head := State();
      var next := WrappingAdd16(lastBoundary, PERIOD);
      var since := WriteCompare(next);
      ChaseWaits(start, head, State());
      if since < PERIOD {
        ArmedIsAt(State());
        return true;
      }
      ChaseCounts(start, head, State());
      base := (base + 1) % TWO64;
      lastBoundary := next;
      return false;
    }

    /** Arm the compare for the boundary after `last_boundary`, first adding every period that ends
        before the write lands. */
    method ArmNextCompare()
      requires Valid(State()) && 2 * pace < PERIOD && running
      requires Since(State()) + 2 * pace < TWO16
      requires Reading(State()) + PERIOD * (Since(State()) + 1) < HORIZON
      modifies `base, `lastBoundary, `comp1, `cntr, `elapsed
      ensures elapsed >= old(elapsed)
      ensures Reading(State()) == Reading(old(State())) + (elapsed - old(elapsed))
      ensures Valid(State()) && Armed(State()) && State() == At(Reading(State()), cntr, elapsed)
      ensures cntr == (old(cntr) + (elapsed - old(elapsed))) % TWO16
      ensures Reading(State()) <= Reading(old(State())) + PERIOD * (Since(old(State())) + 1)
    {
      ghost var start := State();
      while true
        invariant Chasing(start, State())
        decreases Since(State())
      {
        var armed := ArmOnce(start);
        if armed {
          break;
        }
      }
    }

    /** Wake every timer due at `base` and cache the earliest deadline left. */
    method ProcessQueue() returns (woken: set<nat>)
      requires forall t :: t in queue ==> t.at <= U64_MAX
      modifies `queue, `nextAlarm
      ensures woken == Wakers(Due(old(queue), base)) && queue == old(queue) - Due(old(queue), base)
      ensures Earliest(nextAlarm, queue)
    {
      var next := U64_MAX;
      woken := {};
      var todo := queue;
      queue := {};
      while todo != {}
        invariant todo <= old(queue)
        invariant woken == Wakers(Due(old(queue) - todo, base))
        invariant queue == old(queue) - todo - Due(old(queue), base)
        invariant next <= U64_MAX && forall t :: t in queue ==> next <= t.at
        invariant next < U64_MAX ==> exists t :: t in queue && t.at == next
        decreases todo
      {
        var t :| t in todo;
        ghost var done := old(queue) - todo;
        todo := todo - {t};
        assert old(queue) - todo == done + {t};
        if t.at <= base {
          assert Due(done + {t}, base) == Due(done, base) + {t};
          woken := woken + {t.waker};
        } else {
          assert Due(done + {t}, base) == Due(done, base);
          queue := queue + {t};
          next := Min(next, t.at);
        }
      }
      assert old(queue) - {} == old(queue);
      nextAlarm := if next == U64_MAX then None else Some(next);
    }

    /** Sample the counter and move `base` and the boundary over the whole periods since the boundary. */
    method CountPeriods()
      requires Ok() && InTime(1)
      modifies `base, `lastBoundary, `cntr, `elapsed
      ensures old(elapsed) <= elapsed <= old(elapsed) + pace
      ensures State() == Counted(Elapse(old(State()), elapsed - old(elapsed)))
    {
      var value := ReadCntr();
      var periods := WrappingSub16(value, lastBoundary) / PERIOD;
      base := (base + periods) % TWO64;
      lastBoundary := WrappingAdd16(lastBoundary, periods * PERIOD);
    }

    /** Doing so loses no count. */
    method CountElapsedPeriods()
      requires Ok() && InTime(1)
      modifies `base, `lastBoundary, `cntr, `elapsed
      ensures old(elapsed) <= elapsed <= old(elapsed) + pace
      ensures Valid(State()) && Since(State()) < PERIOD
      ensures Reading(State()) == Reading(old(State())) + (elapsed - old(elapsed))
      ensures cntr == (old(cntr) + (elapsed - old(elapsed))) % TWO16
    {
      CountPeriods();
      PeriodsCountedAfter(old(State()), elapsed - old(elapsed));
    }

    /** Count what has passed, and arm the compare for the next boundary. */
    method Advance() returns (ghost late: nat, ghost work: nat)
      requires Ok() && InTime(1)
      modifies `base, `lastBoundary, `comp1, `cntr, `elapsed
      ensures Admissible(old(State()), Tick(late, work)) && State() == Step(old(State()), Tick(late, work))
      ensures Valid(State()) && Since(State()) < PERIOD
      ensures Reading(State()) <= Reading(old(State())) + pace + PERIOD * PERIOD
    {
      ghost var start := State();
      CountElapsedPeriods();
      ghost var sampled := State();
      late := sampled.elapsed - start.elapsed;
      ArmNextCompare();
      work := TickTaken(start, sampled, State());
    }

    /** The TMR0 interrupt. */
    method OnTick() returns (woken: set<nat>, ghost late: nat, ghost work: nat)
      requires Ok() && InTime(1) && Reading(State()) + 2 * MARGIN < HORIZON
      modifies `base, `lastBoundary, `comp1, `cntr, `elapsed, `queue, `nextAlarm
      ensures Ok() && InTime(8) && Reading(State()) <= Reading(old(State())) + MARGIN
      ensures Admissible(old(State()), Tick(late, work)) && State() == Step(old(State()), Tick(late, work))
      ensures woken == Wakers(Due(old(queue), base)) && queue == old(queue) - Due(old(queue), base)
      ensures Earliest(nextAlarm, queue)
    {
      late, work := Advance();
      woken := ProcessQueue();
    }

    /** Reset TMR0 and arm it for the first period. */
    method ConfigureTmr0()
      modifies `lastBoundary, `comp1, `cntr, `running, `elapsed
      ensures running && cntr == 0 && lastBoundary == 0 && comp1 == PERIOD
      ensures old(elapsed) <= elapsed <= old(elapsed) + 3 * pace
    {
      running := false;
      cntr := 0;
      var boundary := ReadCntr();
      lastBoundary := boundary;
      Delay(pace);
      comp1 := WrappingAdd16(boundary, PERIOD);
      Delay(pace);
      running := true;
    }

    /** Start TMR0, the first time only. Real time is counted from here. */
    method Init()
      requires Ok()
      modifies `started, `lastBoundary, `comp1, `cntr, `running, `elapsed, `sleepStart
      ensures started
      ensures old(started) ==> State() == old(State()) && running == old(running) && sleepStart == old(sleepStart)
      ensures !old(started) && base == 0 ==> Ok() && InTime(8) && State() == Initial()
    {
      if started {
        return;
      }
      started := true;
      ConfigureTmr0();
      elapsed, sleepStart := 0, 0;
    }

    /** Sleep-timer ticks since the sleep began. */
    function TimerCount(): nat
      requires sleepStart <= elapsed
      reads this
    {
      Measured(elapsed - sleepStart)
    }

    /** Restart TMR0, then sample its counter and the sleep timer, `up` counts apart. */
    method RestartAndSample() returns (value: u16, dozeTicks: nat, ghost up: nat)
      requires 2 * pace < PERIOD && sleepStart <= elapsed
      modifies `lastBoundary, `comp1, `cntr, `running, `elapsed
      ensures running && up <= pace && cntr == (value + up) % TWO16 && comp1 == PERIOD
      ensures old(elapsed) + up <= elapsed <= old(elapsed) + 5 * pace
      ensures dozeTicks == TimerCount()
    {
      ConfigureTmr0();
      value := ReadCntr();
      ghost var sampled := elapsed;
      Delay(pace);
      up := elapsed - sampled;
      dozeTicks := TimerCount();
    }

    /** Add the whole ticks of the time slept to `base` and leave the rest as TMR0's phase. */
    method PlaceBoundary(value: u16, dozeTicks: nat, counts: u16, ghost before: Clock, ghost up: nat)
      requires Valid(before) && counts == Since(before) && base == before.base && up < PERIOD
      requires dozeTicks < TWO32 && cntr == (value + up) % TWO16 && comp1 == PERIOD
      requires Reading(before) + COUNTS_PER_DOZE_TICK * dozeTicks + 1 + up < HORIZON
      modifies `base, `lastBoundary
      ensures Valid(State()) && Since(State()) < 2 * PERIOD
      ensures Reading(State())
              == Reading(before) + COUNTS_PER_DOZE_TICK * dozeTicks + COUNTS_PER_DOZE_TICK / 2 + up
    {
      var rest := (dozeTicks % PERIOD) * COUNTS_PER_DOZE_TICK + COUNTS_PER_DOZE_TICK / 2 + counts;
      var ticks := (dozeTicks / PERIOD) * COUNTS_PER_DOZE_TICK + rest / PERIOD;
      base := (base + ticks) % TWO64;
      lastBoundary := WrappingSub16(value, rest % PERIOD);
      PhasePlaced(before, dozeTicks, counts, value, up, State());
    }

    /** Account for a sleep, given the counts since the last boundary just before it (read in state
        `before`), and restart TMR0. */
    method ResyncAfterSleep(counts: u16, ghost before: Clock) returns (woken: set<nat>, ghost doze: Event)
      requires 2 * pace < PERIOD && base == before.base && Valid(before) && counts == Since(before)
      requires forall t :: t in queue ==> t.at <= U64_MAX
      requires before.elapsed <= sleepStart <= elapsed
      requires Reading(before) + 2 * MARGIN < HORIZON
      modifies `base, `lastBoundary, `comp1, `cntr, `running, `elapsed, `queue, `nextAlarm
      ensures doze.Doze? && Admissible(before, doze) && State() == Step(before, doze)
      ensures doze.down == sleepStart - before.elapsed && old(elapsed) - sleepStart <= doze.asleep
      ensures Ok() && InTime(8) && Reading(State()) <= Reading(before) + MARGIN
      ensures woken == Wakers(Due(old(queue), base)) && queue == old(queue) - Due(old(queue), base)
      ensures Earliest(nextAlarm, queue)
    {
      var value, dozeTicks;
      ghost var up;
      value, dozeTicks, up := RestartAndSample();
      PlaceBoundary(value, dozeTicks, counts, before, up);
      ghost var placed := State();
      ArmNextCompare();
      assert Reading(State()) <= Reading(before) + COUNTS_PER_DOZE_TICK * TWO32 + up + PERIOD * (2 * PERIOD);
      assert InTime(8);
      doze := SleepMeasured(before, sleepStart, dozeTicks, value, up, placed, State());
      woken := ProcessQueue();
    }
  }
}
