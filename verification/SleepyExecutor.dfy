/**
 The sleep-aware run loop. Interrupts, polled tasks and the time everything takes are the
 environment: methods that do any number of the things allowed at that point. The critical section
 is straight-line code between them, and entering Doze demands that it is safe.
 */
module SleepyExecutor {
  import opened Common
  import opened Timebase
  import opened TimeDriver

  /** Shortest idle stretch worth sleeping for, in ticks. */
  const MIN_SLEEP_TICKS: nat := 20

  lemma DueAreWoken(queue: set<Timer>, now: nat)
    ensures forall t :: t in queue && t.at <= now ==> t.waker in Wakers(Due(queue, now))
  {
  }

  /** What an iteration's critical section found: the flag, the guards held, the cached deadline, the time when it
      looked at that, and the clock when it programmed the timeout or left it at that. */
  datatype Decision = Decision(flag: bool, guards: nat, alarm: Option<nat>, now: nat, programmed: Clock) {
    predicate ToSleep() {
      !flag && guards == 0 && alarm.Some? && now + 20 <= alarm.value
    }
  }

  /** How many of the decisions are to sleep. */
  function ToSleep(ds: seq<Decision>): nat {
    if ds == [] then 0 else ToSleep(ds[..|ds| - 1]) + if ds[|ds| - 1].ToSleep() then 1 else 0
  }

  class SleepyExecutor {
    const drv: TmrDriver
    /** Set by the pender when a wake makes a task runnable. */
    var pended: bool
    /** Tasks woken and not yet polled. */
    var runQueue: set<nat>
    /** `SleepInhibitGuard`s held. */
    var guards: nat

    /** How often tasks have been woken. */
    ghost var wakes: nat

    /** Everything that has happened to the clock since start-up. */
    ghost var history: seq<Event>

    constructor (drv: TmrDriver)
      requires drv.Ok() && drv.State() == Initial()
      ensures this.drv == drv && !pended && runQueue == {} && history == [] && Ok()
    {
      this.drv := drv;
      pended, runQueue, guards, wakes, history := false, {}, 0, 0, [];
    }

    /** The driver is in order, and its clock is the one the history leads to. */
    ghost predicate Ok()
      reads this, drv
    {
      drv.Ok() && AdmissibleRun(Initial(), history) && Run(Initial(), history) == drv.State()
    }

    /** Note that `e` took the clock from `before`, where the history had left it, to where it is now. */
    ghost method Record(before: Clock, e: Event)
      requires drv.Ok() && AdmissibleRun(Initial(), history) && Run(Initial(), history) == before
      requires Admissible(before, e) && drv.State() == Step(before, e)
      modifies `history
      ensures Ok() && history == old(history) + [e]
      ensures Sleeps(history) == Sleeps(old(history)) + if e.Doze? then 1 else 0
    {
      SleepsExtend(history, e);
      RunExtends(Initial(), history, e);
      history := history + [e];
    }

    /** Nothing woken since the flag was cleared goes unnoticed. */
    predicate PendedIfRunnable()
      reads this
    {
      runQueue != {} ==> pended
    }

    /** At least `n` more critical sections fit before the 64-bit clock runs out. */
    predicate OnTime(n: nat)
      reads this, drv
    {
      drv.InTime(8) && Reading(drv.State()) + n * MARGIN < HORIZON
    }

    /** Whatever the executor has been through, the clock is off by no more than the gaps around its
        sleeps, a count of rounding for each, and the sleep timer's wraps. */
    lemma ClockTracksRealTime()
      requires Ok()
      ensures var bias := Gaps(history) - COUNTS_PER_DOZE_TICK * TWO32 * TimerWraps(history);
              drv.elapsed + bias <= Reading(drv.State()) <= drv.elapsed + bias + Sleeps(history)
    {
      RunDrift(Initial(), history);
    }

    /** The pender is called when the run queue stops being empty; it may be called for later wakes too. */
    method Wake(woken: set<nat>)
      modifies `pended, `runQueue, `wakes
      ensures runQueue == old(runQueue) + woken
      ensures old(PendedIfRunnable()) ==> PendedIfRunnable()
      ensures wakes == if woken == {} then old(wakes) else old(wakes) + 1
      ensures pended ==> old(pended) || wakes > old(wakes)
    {
      var again: bool := *;
      if woken != {} && (runQueue == {} || again) {
        pended := true;
      }
      runQueue := runQueue + woken;
      wakes := if woken == {} then wakes else wakes + 1;
    }

    /** Time passes, up to what the documented limit on masked interrupts allows. */
    method Idle()
      requires Ok() && OnTime(4)
      modifies `history, drv`cntr, drv`elapsed
      ensures Sleeps(history) == Sleeps(old(history))
      ensures Ok() && OnTime(4)
    {
      var n: nat :| && Since(drv.State()) + n + 8 * drv.pace < TWO16
                    && Reading(drv.State()) + n + 4 * MARGIN < HORIZON;
      ghost var before := drv.State();
      PassMeasuredIffNoWrap(before, n);
      drv.cntr := (drv.cntr + n) % TWO16;
      drv.elapsed := drv.elapsed + n;
      Record(before, Pass(n));
    }

    /** The TMR0 interrupt: on time, late or spurious. */
    method TimerInterrupt()
      requires Ok() && drv.InTime(1) && Reading(drv.State()) + 2 * MARGIN < HORIZON
      modifies this`pended, this`runQueue, this`wakes, this`history, drv
      ensures old(wakes) <= wakes && (pended ==> old(pended) || wakes > old(wakes))
      ensures Sleeps(history) == Sleeps(old(history))
      ensures Ok() && drv.InTime(8) && Reading(drv.State()) <= Reading(old(drv.State())) + MARGIN
      ensures old(PendedIfRunnable()) ==> PendedIfRunnable()
      ensures old(runQueue) <= runQueue && drv.queue <= old(drv.queue)
      ensures forall t :: t in old(drv.queue) && t.at <= drv.base ==> t.waker in runQueue
    {
      ghost var before, queue := drv.State(), drv.queue;
      var woken;
      ghost var late, work;
      woken, late, work := drv.OnTick();
      Record(before, Tick(late, work));
      DueAreWoken(queue, drv.base);
      Wake(woken);
    }

    /** Any number of interrupts, interleaved with the passage of time. */
    method Interrupts()
      requires Ok() && OnTime(3)
      modifies this`pended, this`runQueue, this`wakes, this`history, drv
      ensures old(wakes) <= wakes && (pended ==> old(pended) || wakes > old(wakes))
      ensures Sleeps(history) == Sleeps(old(history))
      ensures Ok() && OnTime(3)
      ensures old(PendedIfRunnable()) ==> PendedIfRunnable()
      ensures old(runQueue) <= runQueue && drv.queue <= old(drv.queue)
    {
      var count :| 0 <= count;
      for i := 0 to count
        invariant Ok() && OnTime(3) && Sleeps(history) == Sleeps(old(history))
        invariant old(PendedIfRunnable()) ==> PendedIfRunnable()
        invariant old(runQueue) <= runQueue && drv.queue <= old(drv.queue)
        invariant old(wakes) <= wakes && (pended ==> old(pended) || wakes > old(wakes))
      {
        if OnTime(4) {
          Idle();
          var timer: bool := *;
          if timer {
            TimerInterrupt();
          } else {
            var woken: set<nat> := *;
            Wake(woken);
          }
        }
      }
    }

    /** Take every runnable task off the queue and poll it. The tasks may do anything tasks can:
        set timers, wake each other, start and end peripheral waits; and interrupts keep coming. */
    method Poll()
      requires Ok() && OnTime(3)
      modifies this`pended, this`runQueue, this`wakes, this`guards, this`history, drv
      ensures old(wakes) <= wakes && (pended ==> old(pended) || wakes > old(wakes))
      ensures Sleeps(history) == Sleeps(old(history))
      ensures Ok() && OnTime(3)
      ensures PendedIfRunnable()
    {
      runQueue := {};
      var count :| 0 <= count;
      for i := 0 to count
        invariant Ok() && OnTime(3) && Sleeps(history) == Sleeps(old(history))
        invariant PendedIfRunnable()
        invariant old(wakes) <= wakes && (pended ==> old(pended) || wakes > old(wakes))
      {
        Interrupts();
        var held :| 0 <= held;
        guards := held;
        var setsTimer: bool := *;
        if setsTimer {
          var waker: nat :| 0 <= waker;
          var at: nat :| at <= U64_MAX;
          drv.ScheduleWake(at, waker);
        }
        var woken: set<nat> := *;
        Wake(woken);
      }
    }

    /** What must hold to enter Doze with this timeout: nothing is runnable, no peripheral wait is in
        flight, every timer was 20 ticks or more ahead when last checked, and the sleep ends by the
        earliest of them. */
    ghost predicate DozeIsSafe(timeout: nat, checked: Clock)
      reads this, drv
    {
      && runQueue == {} && guards == 0
      && (forall t :: t in drv.queue ==> Now(checked) + MIN_SLEEP_TICKS <= t.at)
      && 0 < timeout <= U32_MAX
      && (forall t :: t in drv.queue ==>
            Reading(drv.State()) + COUNTS_PER_DOZE_TICK * timeout <= PERIOD * t.at)
      && checked.base == drv.base && Reading(drv.State()) <= Reading(checked) + drv.pace
    }

    /** Note that only time has passed since `before`. */
    ghost method RecordPass(before: Clock)
      requires drv.Ok() && AdmissibleRun(Initial(), history) && Run(Initial(), history) == before
      requires before.elapsed <= drv.elapsed && drv.State() == Elapse(before, drv.elapsed - before.elapsed)
      requires Since(before) + (drv.elapsed - before.elapsed) < TWO16
      requires Reading(before) + (drv.elapsed - before.elapsed) < HORIZON
      modifies `history
      ensures Sleeps(history) == Sleeps(old(history))
      ensures Ok() && Since(drv.State()) == Since(before) + (drv.elapsed - before.elapsed)
      ensures Reading(drv.State()) == Reading(before) + (drv.elapsed - before.elapsed)
    {
      PassMeasuredIffNoWrap(before, drv.elapsed - before.elapsed);
      Record(before, Pass(drv.elapsed - before.elapsed));
    }

    /** The sleep handshake takes time. */
    method AwaitSleepSync()
      requires Ok() && drv.InTime(2)
      modifies `history, drv`cntr, drv`elapsed
      ensures Sleeps(history) == Sleeps(old(history))
      ensures Ok() && drv.InTime(1)
      ensures Reading(old(drv.State())) <= Reading(drv.State()) <= Reading(old(drv.State())) + drv.pace
    {
      ghost var before := drv.State();
      drv.Delay(drv.pace);
      RecordPass(before);
    }

    /** The power-down hook looks at TMR0. */
    method PowerDownHook() returns (counts: u16)
      requires Ok() && drv.InTime(1)
      modifies `history, drv`cntr, drv`elapsed
      ensures Sleeps(history) == Sleeps(old(history))
      ensures Ok() && counts == Since(drv.State())
      ensures Reading(old(drv.State())) <= Reading(drv.State()) <= Reading(old(drv.State())) + drv.pace
    {
      ghost var before := drv.State();
      counts := drv.CountsBeforeSleep();
      RecordPass(before);
    }

    /** Doze, then resync. The sleep lasts at least the timeout; when and how the chip wakes after that
        is up to the hardware. */
    method Sleep(timeout: nat, ghost checked: Clock) returns (ghost doze: Event)
      requires Ok() && drv.InTime(2) && Reading(drv.State()) + 2 * MARGIN + 2 * drv.pace < HORIZON
      requires DozeIsSafe(timeout, checked)
      modifies this`pended, this`runQueue, this`wakes, this`history, drv
      ensures old(wakes) <= wakes && (pended ==> old(pended) || wakes > old(wakes))
      ensures Ok() && drv.InTime(8) && Since(drv.State()) < PERIOD
      ensures doze.Doze? && COUNTS_PER_DOZE_TICK * timeout <= doze.asleep
      ensures history != [] && history[|history| - 1] == doze && Sleeps(history) == Sleeps(old(history)) + 1
      ensures forall t :: t in old(drv.queue) && t.at <= drv.base ==> t.waker in runQueue
      ensures forall t :: t in drv.queue <==> t in old(drv.queue) && drv.base < t.at
    {
      AwaitSleepSync();
      var counts := PowerDownHook();
      // The clocks stop; the sleep timer starts.
      ghost var before, queue := drv.State(), drv.queue;
      var down :| 0 <= down;
      var asleep :| COUNTS_PER_DOZE_TICK * timeout <= asleep;
      drv.running := false;
      drv.sleepStart := drv.elapsed + down;
      drv.elapsed := drv.elapsed + down + asleep;
      var woken;
      woken, doze := drv.ResyncAfterSleep(counts, before);
      Record(before, doze);
      DueAreWoken(queue, drv.base);
      Wake(woken);
      StepReads(before, doze);
    }

    /** Whether the next timer is far enough ahead to sleep. */
    method FarEnough() returns (far: bool)
      requires Ok() && drv.InTime(4)
      modifies `history, drv`cntr, drv`elapsed
      ensures Sleeps(history) == Sleeps(old(history))
      ensures Ok() && drv.InTime(3)
      ensures Reading(old(drv.State())) <= Reading(drv.State()) <= Reading(old(drv.State())) + drv.pace
      ensures far <==> drv.nextAlarm.Some?
                       && MIN_SLEEP_TICKS <= SaturatingSub(drv.nextAlarm.value, Now(drv.State()))
    {
      ghost var before := drv.State();
      var ticks := drv.TicksUntilNextWake();
      RecordPass(before);
      far := ticks.Some? && MIN_SLEEP_TICKS <= ticks.value;
    }

    /** The timeout for the deadline found far enough ahead when the clock was `checked`, just now. */
    method ProgramTimeout(ghost checked: Clock) returns (timeout: nat)
      requires Ok() && runQueue == {} && guards == 0 && drv.InTime(3) && checked == drv.State()
      requires drv.nextAlarm.Some? && MIN_SLEEP_TICKS <= SaturatingSub(drv.nextAlarm.value, Now(checked))
      modifies `history, drv`cntr, drv`elapsed
      ensures Sleeps(history) == Sleeps(old(history))
      ensures Ok() && drv.InTime(2) && DozeIsSafe(timeout, checked)
      ensures timeout == DozeTimeout(drv.nextAlarm.value, drv.base, Since(drv.State()))
      ensures Reading(checked) <= Reading(drv.State())
    {
      var doze := drv.DozeTicksUntilNextWake();
      RecordPass(checked);
      DozeTimeoutIsSafe(checked, drv.State(), drv.nextAlarm.value);
      timeout := doze.value;
    }

    /** Whether to sleep now, and for how long: exactly when nothing was woken, no guard is held and the
        cached deadline is far enough ahead. */
    method SleepTimeout() returns (timeout: Option<nat>, ghost checked: Clock)
      requires Ok() && PendedIfRunnable() && drv.InTime(4)
      modifies `history, drv`cntr, drv`elapsed
      ensures Sleeps(history) == Sleeps(old(history))
      ensures Ok() && drv.InTime(2)
      ensures Reading(checked) <= Reading(drv.State()) <= Reading(old(drv.State())) + 2 * drv.pace
      ensures timeout.Some? ==> DozeIsSafe(timeout.value, checked)
      ensures timeout.Some? ==>
                drv.nextAlarm.Some? && timeout.value == DozeTimeout(drv.nextAlarm.value, drv.base, Since(drv.State()))
      ensures checked.base == drv.base
      ensures Reading(old(drv.State())) <= Reading(checked) <= Reading(old(drv.State())) + drv.pace
      ensures timeout.Some? <==> && !pended && guards == 0 && drv.nextAlarm.Some?
                                 && MIN_SLEEP_TICKS <= SaturatingSub(drv.nextAlarm.value, Now(checked))
    {
      timeout, checked := None, drv.State();
      if pended || guards != 0 {
        return;
      }
      var far := FarEnough();
      checked := drv.State();
      if far {
        var ticks := ProgramTimeout(checked);
        timeout := Some(ticks);
      }
    }

    /** Whether `decision` was acted on: a sleep, noted last, of at least the timeout for the deadline from when it
        was programmed. */
    ghost predicate Slept(decision: Decision, doze: Event)
      reads this
    {
      && decision.alarm.Some? && doze.Doze? && doze in history
      && 2 * DozeTimeout(decision.alarm.value, decision.programmed.base, Since(decision.programmed)) <= doze.asleep
    }

    /** The iteration's critical section: sleep and resync exactly if nothing was woken since the flag was
        cleared, no guard is held, and the cached deadline is 20 ticks or more ahead when looked at. */
    method SleepIfIdle() returns (ghost decision: Decision, ghost doze: Event)
      requires Ok() && PendedIfRunnable() && OnTime(3)
      modifies this`pended, this`runQueue, this`wakes, this`history, drv
      ensures Ok() && drv.InTime(2)
      ensures if decision.ToSleep() then drv.InTime(8) && Since(drv.State()) < PERIOD
              else Reading(drv.State()) + 2 * MARGIN < HORIZON
      ensures decision.flag == old(pended) && decision.guards == old(guards) && decision.alarm == old(drv.nextAlarm)
      ensures Reading(old(drv.State())) / 375 <= decision.now <= (Reading(old(drv.State())) + drv.pace) / 375
      ensures decision.programmed.base == old(drv.base)
      ensures Reading(old(drv.State())) <= Reading(decision.programmed) <= Reading(old(drv.State())) + 2 * drv.pace
      ensures Sleeps(history) == Sleeps(old(history)) + if decision.ToSleep() then 1 else 0
      ensures decision.ToSleep() ==> Slept(decision, doze)
      ensures old(wakes) <= wakes
    {
      doze := Pass(0);
      var timeout;
      ghost var checked;
      timeout, checked := SleepTimeout();
      NowIsReading(checked);
      decision := Decision(old(pended), old(guards), old(drv.nextAlarm), Now(checked), drv.State());
      if timeout.Some? {
        doze := Sleep(timeout.value, checked);
        assert doze == history[|history| - 1];
      }
    }

    /** One iteration of the run loop. It sleeps exactly once if that is the decision its critical section comes
        to, and not at all otherwise; and the flag can only be in the way if something was woken since the
        iteration began. */
    method Iterate() returns (ghost decision: Decision, ghost doze: Event)
      requires Ok() && OnTime(3)
      modifies this, drv
      ensures Ok() && drv.InTime(8)
      ensures Sleeps(history) == Sleeps(old(history)) + if decision.ToSleep() then 1 else 0
      ensures decision.ToSleep() ==> Slept(decision, doze)
      ensures decision.flag ==> wakes > old(wakes)
    {
      pended := false;
      Interrupts();
      Poll();
      Interrupts();
      decision, doze := SleepIfIdle();
      // An overdue TMR0 interrupt is served as soon as interrupts are unmasked.
      if PERIOD <= Since(drv.State()) {
        TimerInterrupt();
      }
    }

    /** The run loop, for `count` iterations or as many as the 64-bit clock lasts: it sleeps as often as its
        iterations decide to, every Doze it enters is safe, and it never leaves the clock off by more than its
        sleeps account for. */
    method Loop(count: nat) returns (ghost decisions: seq<Decision>)
      requires Ok() && drv.InTime(8)
      modifies this, drv
      ensures Ok() && drv.InTime(8)
      ensures |decisions| == count || !OnTime(3)
      ensures Sleeps(history) == Sleeps(old(history)) + ToSleep(decisions)
      ensures var bias := Gaps(history) - COUNTS_PER_DOZE_TICK * TWO32 * TimerWraps(history);
              drv.elapsed + bias <= Reading(drv.State()) <= drv.elapsed + bias + Sleeps(history)
    {
      decisions := [];
      for i := 0 to count
        invariant Ok() && drv.InTime(8) && (|decisions| == i || !OnTime(3))
        invariant Sleeps(history) == Sleeps(old(history)) + ToSleep(decisions)
      {
        if OnTime(3) {
          ghost var decision, doze := Iterate();
          assert (decisions + [decision])[..|decisions|] == decisions;
          decisions := decisions + [decision];
        }
      }
      ClockTracksRealTime();
    }
  }
}
