/** The COP watchdog timer: its 128 time-out settings, and the driver over its registers. */
module Cop {
  import opened Common

  /** `REF_OSC` cycles per millisecond, at 24 MHz. */
  const CYCLES_PER_MS: nat := 24_000
  /** `REF_OSC` cycles per COP step. */
  const STEP_CYCLES: nat := 0x20_0000
  const FIELD_MASK: nat := 0x7F

  type Timeout = t: nat | t <= 127

  /** The time-out in cycles. */
  function Period(t: Timeout): nat {
    (t + 1) * STEP_CYCLES
  }

  function AsMillis(t: Timeout): nat {
    (t + 1) * STEP_CYCLES / CYCLES_PER_MS
  }

  function FromMillis(ms: nat): Option<Timeout> {
    if ms > 2 * AsMillis(127) then None
    else
      var steps := (ms * CYCLES_PER_MS + STEP_CYCLES - 1) / STEP_CYCLES;
      var steps' := if steps == 0 then 1 else steps;
      if steps' > FIELD_MASK + 1 then None else Some(steps' - 1)
  }

  /** `from_millis` finds the least setting that lasts `ms`, and fails exactly when there is none; and
      nothing in it overflows 32 bits. */
  lemma FromMillisIsLeast(ms: nat)
    ensures FromMillis(ms).Some? <==> exists t: Timeout :: ms * CYCLES_PER_MS <= Period(t)
    ensures FromMillis(ms).Some? ==>
              && ms * CYCLES_PER_MS <= Period(FromMillis(ms).value)
              && forall t: Timeout :: t < FromMillis(ms).value ==> Period(t) < ms * CYCLES_PER_MS
    ensures ms <= 2 * AsMillis(127) ==> ms * CYCLES_PER_MS + STEP_CYCLES < TWO32
    ensures Period(127) < TWO32
  {
  }

  /** Every setting comes back from its own length in milliseconds, although that is rounded down. */
  lemma FromMillisInvertsAsMillis(t: Timeout)
    ensures FromMillis(AsMillis(t)) == Some(t)
    ensures AsMillis(t) * 24_000 <= Period(t) < (AsMillis(t) + 1) * 24_000
    ensures AsMillis(0) == 87 && AsMillis(127) == 11184
  {
  }

  /** The driver's conversion of a tick count (1 kHz) to 32-bit milliseconds, through whole seconds. */
  function MillisOf(ticks: nat): nat {
    var secs := ticks / 1000;
    if secs > U32_MAX || secs * 1000 > U32_MAX || secs * 1000 + ticks % 1000 > U32_MAX then U32_MAX
    else secs * 1000 + ticks % 1000
  }

  lemma MillisOfSaturates(ticks: nat)
    ensures MillisOf(ticks) == Min(ticks, U32_MAX)
    ensures FromMillis(MillisOf(ticks)) == FromMillis(ticks)
  {
  }

  // ---- The timer ----

  /** What `COP_CNTL` shows, the cycles counted since the last service, and whether the chip was reset. */
  datatype Cop = Cop(enabled: bool, locked: bool, timeout: Timeout, count: nat, reset: bool)

  /** The timer runs for `n` cycles. */
  function Tick(c: Cop, n: nat): Cop {
    if !c.enabled || c.reset then c
    else c.(count := c.count + n, reset := c.count + n >= Period(c.timeout))
  }

  /** However the time that passes is divided, a running timer has reset the chip exactly if it has counted its
      period since the last service. */
  lemma TicksAdd(c: Cop, m: nat, n: nat)
    requires !c.reset && (c.enabled ==> c.count < Period(c.timeout))
    ensures Tick(Tick(c, m), n).reset <==> c.enabled && c.count + m + n >= (c.timeout + 1) * 0x20_0000
    ensures !Tick(c, m).reset ==> Tick(Tick(c, m), n) == Tick(c, m + n)
  {
  }

  function Service(c: Cop): Cop {
    if c.reset then c else c.(count := 0)
  }

  /** A write to `COP_CNTL`, which the write protection swallows. */
  function WriteCntl(c: Cop, enabled: bool, locked: bool, timeout: Timeout): Cop {
    if c.locked || c.reset then c else c.(enabled := enabled, locked := locked, timeout := timeout)
  }

  /** Nothing but a reset changes the configuration of a locked timer; a service makes it count from zero, so that
      it then runs for its whole period. */
  lemma LockedIsFrozen(c: Cop, enabled: bool, timeout: Timeout, n: nat)
    requires c.locked && !c.reset
    ensures WriteCntl(c, enabled, false, timeout) == c
    ensures var c' := Tick(Service(c), n);
            && c'.locked && c'.enabled == c.enabled && c'.timeout == c.timeout
            && (c'.reset <==> c.enabled && n >= (c.timeout + 1) * 0x20_0000)
  {
  }

  class Watchdog {
    var cop: Cop
    /** The most cycles between two register accesses of one call. */
    const pace: nat

    constructor (pace: nat)
      ensures this.pace == pace && cop == Cop(false, false, 0, 0, false)
    {
      this.pace := pace;
      cop := Cop(false, false, 0, 0, false);
    }

    /** A running timer is not about to expire within `n` accesses. */
    predicate Safe(n: nat)
      reads this
    {
      !cop.reset && (cop.enabled ==> cop.count + n * pace < Period(cop.timeout))
    }

    /** Time passes before a register access. */
    method Delay()
      modifies this
      ensures exists n: nat :: n <= pace && cop == Tick(old(cop), n)
    {
      var n: nat :| n <= pace;
      cop := Tick(cop, n);
    }

    method Feed()
      modifies this
      ensures exists n: nat :: n <= pace && cop == Service(Tick(old(cop), n))
    {
      Delay();
      cop := Service(cop);
    }

    /** Stop the timer, unless it is locked or stopped already. Only a timer about to expire still resets the
        chip. */
    method Stop() returns (ok: bool)
      modifies this
      ensures ok == !old(cop).locked
      ensures (old(cop).reset ==> cop.reset) && (old(Safe(2)) ==> !cop.reset)
      ensures !cop.reset ==> cop.timeout == old(cop).timeout && cop.locked == old(cop).locked
                             && cop.enabled == if ok then false else old(cop).enabled
    {
      Delay();
      var cntl := cop;
      if cntl.locked {
        return false;
      }
      if cntl.enabled {
        Delay();
        cop := WriteCntl(cop, false, false, cntl.timeout);
      }
      return true;
    }

    /** Restart the timer with `timeout`, counting from zero, whatever count it had been stopped at, unless
        it is locked. */
    method Start(timeout: Timeout) returns (ok: bool)
      requires pace < STEP_CYCLES
      modifies this
      ensures ok == !old(cop).locked
      ensures (old(cop).reset ==> cop.reset) && (old(Safe(2)) ==> !cop.reset)
      ensures !cop.reset ==> if ok then cop == Cop(true, false, timeout, 0, false)
                             else cop.enabled == old(cop).enabled && cop.timeout == old(cop).timeout
    {
      ok := Stop();
      if ok {
        Delay();
        cop := WriteCntl(cop, false, false, timeout);
        Delay();
        cop := Service(cop);
        Delay();
        cop := WriteCntl(cop, true, false, timeout);
        Delay();
        cop := Service(cop);
      }
    }

    /** After this, nothing but a reset can stop the timer or change its time-out. */
    method Lock()
      modifies this
      ensures (old(cop).reset ==> cop.reset) && (old(Safe(2)) ==> !cop.reset)
      ensures !cop.reset ==> cop.locked && cop.enabled == old(cop).enabled && cop.timeout == old(cop).timeout
    {
      Delay();
      var cntl := cop;
      Delay();
      cop := WriteCntl(cop, cntl.enabled, true, cntl.timeout);
    }
  }
}
