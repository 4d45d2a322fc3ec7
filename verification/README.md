# MC1322x firmware: a verified model

A Dafny model of the parts of the MC1322x hardware abstraction layer, `embassy` integration, radio driver and
serial loader whose correctness does not show in any one function: a clock rebuilt from a 16-bit counter and a
sleep timer, an executor that may only doze when nothing can be missed, a streaming AES-CCM, a task watchdog, a
two-ended flashing protocol, interrupt-driven waits, and bus and packet bookkeeping.

| file | component | source |
|---|---|---|
| `Timebase.dfy`, `TimeDriver.dfy` | tickless clock: values and runs, then the driver over TMR0 and the sleep timer | `time_driver.rs` |
| `SleepyExecutor.dfy` | run loop that dozes | `sleepy_executor.rs`, `sleep.rs` |
| `Ccm.dfy`, `Aes.dfy` | RFC 3610 as functions, then the ASM driver | `aes.rs` |
| `Cop.dfy`, `TaskWatchdog.dfy` | COP timer and its settings; task table and runs | `watchdog.rs`, `task_watchdog.rs` |
| `Framing.dfy`, `Flash.dfy`, `Loader.dfy`, `FlashHost.dfy` | frames, NOR flash, loader, host, and the two ends composed | `main.rs`, `nvm.rs`, `ssl_protocol.py`, `flash_host.py` |
| `Interrupts.dfy`, `SpiWait.dfy`, `UartWait.dfy` | critical sections and check-then-arm waits under every interleaving | `critical_section_impl.rs`, `util.rs`, `spi.rs`, `uart.rs` |
| `I2c.dfy` | blocking transactions as bus traces | `i2c.rs` |
| `Radio.dfy`, `RadioWait.dfy`, `RadioTransmit.dfy` | packets, buffers and counters: events and runs, then the driver; wake-ups of its futures; which frame a status belongs to | `radio.rs` |
| `Common.dfy` | word limits, bytes, options | |

`dafny verify dfyconfig.toml` verifies everything.

## How it is modelled

- **Time.** Register contents are fields; the true time (`elapsed`, in TMR0 counts) is a quantity the code cannot
  read. Before every register access of a method, time passes by an amount the environment chooses, so a contract
  holds for every timing. Whole runs are sequences of events over values (`Timebase.Run`, `TaskWatchdog.Run`); the
  class methods are proved to take exactly those steps.
- **Interleaving.** The executor's `Interrupts` and `Poll` do any number of the things interrupts and tasks may do.
  The waits and the radio are state machines whose events are the accesses that can be interleaved; invariants hold
  over every run of them.
- **Hardware and external code** appear as contracts. The block cipher is an arbitrary function. `build_b0` (external)
  is section 2.2 of RFC 3610 with L = 2 and M = 8. The timer queue of `embassy-time` is a set from which
  `next_expiration` removes and wakes what is due, returning the least of the rest. The executor of `embassy` calls the
  pender when its run queue stops being empty. The bounds checks are those of `embedded-storage`. A ROM flash
  call that reports success has done its work, except that a write needs erased cells for that; any call changes at
  most the cells it addresses; and on a healthy part only writes to cells that are not erased can fail. libmc1322x
  moves packets between its pool and its queues, in order.

The limits the theorems assume are the documented ones: fewer than 65536 counts between boundary updates, fewer than
375 counts for two register accesses of a critical section, and a tick count that fits 64 bits.

## What turned out not to hold

The model follows the code in each case.

- *A long Doze loses time.* The sleep timer keeps counting while the chip wakes up. If the deadline is so far away that
  timeout and wake-up together do not fit 32 bits (more than six hours), the timer wraps, and the resync
  (`time_driver.rs:239-247`) loses 2^32 of its ticks. A timeout clamped to 32 bits comes to that as soon as the
  wake-up takes one sleep-timer tick; so does an unclamped one closer to the clamp than the wake-up is long.
  `TimeDriver.SleepKeepsTimeIffWithinReach` gives the exact condition on the deadline, for every wake-up time;
  `TimeDriver.ClampedSleepLosesTime` and `TimeDriver.UnclampedSleepLosesTime` are concrete cases.
- *A stale SPI completion resolves the next transfer.* Starting a transfer does not clear `SPI_INT` (`spi.rs:124-131`), so
  one begun after a pending one was dropped may return at once, with its own byte still being shifted.
  `SpiWait.ResolvesOnOwnIffAtRest` gives the exact condition, which every run without such a drop meets, and
  `SpiWait.StaleCompletionResolves` a concrete run.
- *Two radio futures pending at once lose a wake-up.* They share one waker slot. Through one handle there is at most one,
  and then none is lost (`RadioWait.NoWakeUpIsLost`); but the handle can be made at will (`radio.rs:35`), and through two
  a `receive` is forgotten (`RadioWait.SecondFutureIsForgotten`).
- *A status left over from a dropped `transmit` is reported for the next frame*, since `prepare_transmit` does not clear
  it. `RadioTransmit.NewTransmitIsPendingIff`; `RadioTransmit.VerdictsBelong` is what holds otherwise.
- *An empty transmit slice panics.* The comment at `radio.rs:359-360` wants it treated as an empty frame; slicing
  `1..1 + len` of it is out of range. `Radio.TransmitSliceInRangeIffNotEmpty`.
- *AAD of 0xff00 bytes or more is not encoded as RFC 3610 wants*, which has a longer prefix for it; only debug builds
  assert against that. `Ccm.AadStreamIsRfcIff`.
- *A one-sector erase can hit the reserved last sector*, which the whole-chip erase spares; and for an address in the
  last 4 KiB of the 32-bit space the end of the range wraps (in builds without overflow checks) and the request is
  refused. `Loader.EraseRangeAccepted`.

## Model

| member | source | states |
|---|---|---|
| Timebase.PassMeasuredIffNoWrap | mc1322x-embassy/src/time_driver.rs:105-113 | the 16-bit difference to the last boundary measures the passage of time exactly when it does not cross a counter wrap |
| Timebase.NowIsReading | mc1322x-embassy/src/time_driver.rs:105-113 | `now()` is the time the driver has accumulated, in whole ticks |
| Timebase.StepReads | mc1322x-embassy/src/time_driver.rs:227-306 | each event (time passing, an interrupt on time, late or spurious, a sleep) moves the reading by exactly what it measured, and leaves the compare armed |
| Timebase.CompareMatchesAtNextBoundary | mc1322x-embassy/src/time_driver.rs:290-306 | an armed compare matches at the next boundary and not before, at most a period away, so no full-wrap wait occurs |
| Timebase.ArmedIsAt | mc1322x-embassy/src/time_driver.rs:74-90 | reading, counter and time determine the driver's cells whenever the compare is armed |
| Timebase.TickKeepsExact | mc1322x-embassy/src/time_driver.rs:270-288 | an interrupt, however late, keeps `last_boundary` congruent to the true count of boundary `base` and the reading equal to real time |
| Timebase.ClockRefinesRealTime | mc1322x-embassy/src/time_driver.rs:270-306 | in every run without sleeps `now()` is real time in whole ticks and `last_boundary` is the true count of boundary `base` mod 65536 |
| Timebase.RunKeepsExact | mc1322x-embassy/src/time_driver.rs:270-306 | the same from any exact state, over every run |
| Timebase.DozeDrift | mc1322x-embassy/src/time_driver.rs:227-253 | the exact number of counts one sleep makes the clock gain or lose |
| Timebase.SleepKeepsTimeIffNoWrap | mc1322x-embassy/src/time_driver.rs:213-218 | a sleep rounds nothing away (up to its gaps and one count) if and only if the sleep timer does not wrap |
| Timebase.RunDrift | mc1322x-embassy/src/time_driver.rs:227-253 | over every run the clock is off by the sleeps' gaps, at most one count a sleep, and 2^32 sleep-timer ticks for every wrap |
| Timebase.RunExtends | mc1322x-embassy/src/time_driver.rs:270-306 | a run continued by one event is the run and then that event's step |
| Timebase.RunMonotone | mc1322x-embassy/src/time_driver.rs:105-113 | `now()` never decreases over any run, sleeps included |
| Timebase.UnitsAreExact | mc1322x-embassy/src/time_driver.rs:32-50 | a tick is 375 counts of the 24 MHz oscillator over 64, and a sleep-timer tick two of them |
| Timebase.SleepsExtend | mc1322x-embassy/src/sleepy_executor.rs:114-135 | a run continued by one event has one more sleep if that is a Doze |
| TimeDriver.DozeTimeoutEndsAtDeadline | mc1322x-embassy/src/time_driver.rs:183-198 | whatever saturates or clamps, a programmed Doze never ends after the deadline; and less than one sleep tick before it unless something clamps |
| TimeDriver.DozeTimeoutPositive | mc1322x-embassy/src/sleepy_executor.rs:104-112 | a deadline 20 ticks away when checked still gives a positive timeout when it is computed |
| TimeDriver.DozeTimeoutIsSafe | mc1322x-embassy/src/sleepy_executor.rs:104-122 | both together, for the two looks at the clock the executor takes |
| TimeDriver.TimerWrapsIffOutOfReach | mc1322x-embassy/src/time_driver.rs:193-197 | for every deadline and every wake-up time, sleep and wake-up wrap the sleep timer if and only if the deadline is out of reach |
| TimeDriver.SleepKeepsTimeIffWithinReach | mc1322x-embassy/src/time_driver.rs:183-253 | a sleep programmed for a deadline keeps time if and only if the deadline was within reach when the timeout was computed |
| TimeDriver.ClampedSleepLosesTime | mc1322x-embassy/src/time_driver.rs:193-247 | a concrete deadline and sleep after which the clock has not moved |
| TimeDriver.UnclampedSleepLosesTime | mc1322x-embassy/src/time_driver.rs:193-247 | a concrete deadline whose timeout is not clamped, and a wake-up of two sleep-timer ticks, after which it has not moved either |
| TimeDriver.ResyncConserves | mc1322x-embassy/src/time_driver.rs:236-244 | the split 32-bit arithmetic does not overflow and adds up to the counts before, twice the sleep-timer ticks, and one |
| TimeDriver.PhasePlaced | mc1322x-embassy/src/time_driver.rs:240-248 | the new base and boundary make the clock read the time before the sleep plus what the sleep timer measured |
| TimeDriver.SleepMeasured | mc1322x-embassy/src/time_driver.rs:227-253 | the resync as a whole is the clock's Doze step |
| TimeDriver.PeriodsCounted | mc1322x-embassy/src/time_driver.rs:276-283 | moving base and boundary over the whole periods keeps the reading and leaves less than a period |
| TimeDriver.PeriodsCountedAfter | mc1322x-embassy/src/time_driver.rs:272-283 | so does doing it some counts later |
| TimeDriver.PeriodCounted | mc1322x-embassy/src/time_driver.rs:303-304 | counting one period that has passed keeps the reading and gets one period closer to the counter |
| TimeDriver.ChaseWaits | mc1322x-embassy/src/time_driver.rs:296-299 | a compare write and the read after it add just the time they take |
| TimeDriver.ChaseCounts | mc1322x-embassy/src/time_driver.rs:300-304 | if the boundary has passed, counting that period adds only a period that elapsed and gets closer to the counter |
| TimeDriver.TickTaken | mc1322x-embassy/src/time_driver.rs:270-288 | the interrupt handler as a whole is the clock's Tick step |
| TimeDriver.TmrDriver.constructor | mc1322x-embassy/src/time_driver.rs:92-102 | nothing is queued and nothing started; TMR0 may hold anything |
| TimeDriver.TmrDriver.Init | mc1322x-embassy/src/time_driver.rs:156-172 | the first call leaves the clock at tick 0, armed; a further one changes nothing |
| TimeDriver.TmrDriver.Now | mc1322x-embassy/src/time_driver.rs:105-113 | returns the accumulated time in whole ticks as of the counter read |
| TimeDriver.TmrDriver.ScheduleWake | mc1322x-embassy/src/time_driver.rs:115-127 | queues the timer, and the cached deadline stays no later than any queued one |
| TimeDriver.TmrDriver.TicksUntilNextWake | mc1322x-embassy/src/time_driver.rs:178-181 | ticks from now to the cached deadline, zero if it is over, nothing if there is none |
| TimeDriver.TmrDriver.CountsBeforeSleep | mc1322x-embassy/src/time_driver.rs:206-209 | counts since the last boundary, uncounted whole periods included |
| TimeDriver.TmrDriver.DozeTicksUntilNextWake | mc1322x-embassy/src/time_driver.rs:188-198 | the timeout `DozeTimeoutEndsAtDeadline` is about, from the counter's current position |
| TimeDriver.TmrDriver.WriteCompare | mc1322x-embassy/src/time_driver.rs:298-300 | a compare write and the counter read that tells whether it was in time |
| TimeDriver.TmrDriver.ArmOnce | mc1322x-embassy/src/time_driver.rs:297-304 | one turn of the loop arms the compare in time or counts a period that elapsed and gets closer to the counter |
| TimeDriver.TmrDriver.ArmNextCompare | mc1322x-embassy/src/time_driver.rs:293-306 | ends; conserves the reading; leaves the compare armed strictly ahead of the sampled counter |
| TimeDriver.TmrDriver.ProcessQueue | mc1322x-embassy/src/time_driver.rs:310-317 | wakes and removes exactly the timers due, and caches the earliest finite deadline left |
| TimeDriver.TmrDriver.CountElapsedPeriods | mc1322x-embassy/src/time_driver.rs:272-283 | counts the whole periods since the boundary and loses no count |
| TimeDriver.TmrDriver.Advance | mc1322x-embassy/src/time_driver.rs:272-285 | takes the clock's Tick step |
| TimeDriver.TmrDriver.OnTick | mc1322x-embassy/src/time_driver.rs:270-288 | takes the clock's Tick step, wakes exactly the timers due and leaves the earliest deadline cached |
| TimeDriver.TmrDriver.ConfigureTmr0 | mc1322x-embassy/src/time_driver.rs:133-154 | TMR0 restarts from zero, armed one period ahead |
| TimeDriver.TmrDriver.RestartAndSample | mc1322x-embassy/src/time_driver.rs:228-234 | TMR0 is running before the two counters are sampled, the sleep timer after TMR0 |
| TimeDriver.TmrDriver.PlaceBoundary | mc1322x-embassy/src/time_driver.rs:236-248 | the clock reads the time before the sleep, the time asleep, and the time since the sample |
| TimeDriver.TmrDriver.ResyncAfterSleep | mc1322x-embassy/src/time_driver.rs:211-253 | takes the clock's Doze step from the state before the sleep, wakes exactly the timers that came due, and caches the earliest deadline left |
| SleepyExecutor.SleepyExecutor.ClockTracksRealTime | mc1322x-embassy/src/time_driver.rs:211-253 | whatever tasks, interrupts and sleeps did, the clock is off only by the sleeps' gaps, roundings and wraps |
| SleepyExecutor.SleepyExecutor.Wake | mc1322x-embassy/src/sleepy_executor.rs:50-59 | a wake never leaves a runnable task with the flag clear, and only a wake sets it |
| SleepyExecutor.SleepyExecutor.TimerInterrupt | mc1322x-embassy/src/time_driver.rs:259-288 | every timer due has its task in the run queue; and if the flag was set whenever that was not empty, it still is |
| SleepyExecutor.SleepyExecutor.Interrupts | mc1322x-embassy/src/sleepy_executor.rs:93-97 | any interleaving of interrupts loses no runnable task |
| SleepyExecutor.SleepyExecutor.Poll | mc1322x-embassy/src/sleepy_executor.rs:94-95 | after polling, whatever tasks and interrupts did, a non-empty run queue implies the flag |
| SleepyExecutor.SleepyExecutor.FarEnough | mc1322x-embassy/src/sleepy_executor.rs:104-109 | true exactly when there is a deadline 20 ticks or more ahead |
| SleepyExecutor.SleepyExecutor.ProgramTimeout | mc1322x-embassy/src/sleepy_executor.rs:110-112 | the timeout programmed makes Doze safe |
| SleepyExecutor.SleepyExecutor.SleepTimeout | mc1322x-embassy/src/sleepy_executor.rs:100-112 | the executor sleeps if and only if the flag is clear, no guard is held and the deadline is far enough; then Doze is safe: nothing runnable, no wait in flight, no queued deadline due, near, or before the end of the sleep |
| SleepyExecutor.SleepyExecutor.PowerDownHook | mc1322x-embassy/src/sleepy_executor.rs:129-131 | TMR0's position is taken with the clock still in order |
| SleepyExecutor.SleepyExecutor.Sleep | mc1322x-embassy/src/sleepy_executor.rs:114-135 | may only be called when Doze is safe; it sleeps exactly once, for at least the timeout; afterwards every timer that came due has been woken, the others are still queued, and the clock is in order |
| SleepyExecutor.SleepyExecutor.SleepIfIdle | mc1322x-embassy/src/sleepy_executor.rs:98-136 | the critical section sleeps, once and for at least the timeout of the cached deadline, if and only if the flag is clear, no guard is held and that deadline is 20 ticks or more ahead of the clock as looked at; it does not sleep otherwise |
| SleepyExecutor.SleepyExecutor.Iterate | mc1322x-embassy/src/sleepy_executor.rs:93-137 | one iteration, for every behaviour of tasks and interrupts, sleeps exactly once if its critical section so decides, for at least the timeout of the deadline it saw, and not at all otherwise; the flag can only keep it from sleeping if something was woken since the iteration began; and it keeps the driver's invariant |
| SleepyExecutor.SleepyExecutor.Loop | mc1322x-embassy/src/sleepy_executor.rs:93-137 | as many iterations as asked for, or the 64-bit clock lasts: as many sleeps as they decided on, every Doze entered is safe, and the clock stays within its accounted drift |
| SleepyExecutor.DueAreWoken | mc1322x-embassy/src/time_driver.rs:223-225 | a timer due is among those woken |
| Ccm.XorBitsCancels | mc1322x-hal/src/aes.rs:543-545 | XOR undoes itself, for any width |
| Ccm.XorIsBitSum | mc1322x-hal/src/aes.rs:364-369 | the XOR of two bytes has as each of its eight bits the sum of theirs mod 2 |
| Ccm.BitSumIsXor | mc1322x-hal/src/aes.rs:543-545 | and no other byte has |
| Ccm.BlocksInjective | mc1322x-hal/src/aes.rs:352-356 | zero-padding to blocks loses only the length |
| Ccm.BlocksLast | mc1322x-hal/src/aes.rs:352-356 | whole blocks and a padded rest, as the driver feeds them |
| Ccm.MacInputPrefixFree | mc1322x-hal/src/aes.rs:333-359 | the MAC input encoding is injective and prefix-free (section 2.2 of RFC 3610) |
| Ccm.CbcNext | mc1322x-hal/src/aes.rs:210-222 | feeding one more block takes the CBC-MAC one step on |
| Ccm.B0Injective | mc1322x-hal/src/aes.rs:337-338 | the first block determines nonce, message length and whether there is AAD |
| Ccm.AadBlocksPrefixFree | mc1322x-hal/src/aes.rs:340-350 | the length-prefixed AAD blocks determine the AAD, whatever follows |
| Ccm.AadStreamIsRfcIff | mc1322x-hal/src/aes.rs:334-346 | the length-prefixed AAD is that of section 2.2 of RFC 3610 if and only if the AAD is shorter than 0xff00 bytes |
| Ccm.RfcPrefixReads | mc1322x-hal/src/aes.rs:334-346 | the prefix section 2.2 of RFC 3610 asks for can be told by its first two bytes and stands for the length, for every 64-bit length |
| Ccm.CounterBlocksDistinct | mc1322x-hal/src/aes.rs:298-304 | counter blocks of a nonce are pairwise distinct, and none is a B_0 (section 2.3 of RFC 3610) |
| Ccm.KeystreamFreshIff | mc1322x-hal/src/aes.rs:363-371 | no keystream block is used twice, S_0 included, if and only if the message has fewer than 2^16 blocks, a bound every message that fits the chip's memory meets |
| Ccm.CtrChunk | mc1322x-hal/src/aes.rs:364-369 | the k-th chunk of CTR mode is one cipher block XORed onto it |
| Ccm.XorSeqZero | mc1322x-hal/src/aes.rs:539 | CTR over a zero block yields the cipher block itself, which is S_0 |
| Ccm.CtrCancels | mc1322x-hal/src/aes.rs:361-371 | CTR decrypts what it encrypted |
| Ccm.CtrIsMasked | mc1322x-hal/src/aes.rs:298-371 | byte p of a CTR text is, bit by bit, that of the message plus that of the cipher of the block [1], nonce, p / 16 + 1 in two bytes, high byte first |
| Ccm.TagIsMasked | mc1322x-hal/src/aes.rs:536-546 | the tag is the first eight bytes of the CBC-MAC plus, bit by bit, those of the cipher of counter block 0 |
| Ccm.CbcStepIsBitSum | mc1322x-hal/src/aes.rs:210-222 | each step of the MAC adds the block to the accumulator bit by bit |
| Ccm.B0Bytes | mc1322x-hal/src/aes.rs:337-338 | flags 0x19 or 0x59, the nonce, and the message length, high byte first (section 2.2 of RFC 3610) |
| Ccm.MacInputBytes | mc1322x-hal/src/aes.rs:333-359 | which byte is at each place of what the MAC is taken over: the AAD behind its length, then the message, zeros up to whole blocks |
| Ccm.DecryptInvertsEncrypt | mc1322x-hal/src/aes.rs:526-578 | decryption gives a message if and only if the ciphertext and tag are what that message encrypts to, for every block function |
| Ccm.SealedTextsAreUnique | mc1322x-hal/src/aes.rs:549-578 | no two sealed texts open to the same message |
| Aes.WordsRoundTrip | mc1322x-hal/src/aes.rs:69-79 | a block written as four words reads back as itself |
| Aes.WordsAreBigEndian | mc1322x-hal/src/aes.rs:69-79 | each register word holds its four bytes high byte first |
| Aes.StreamGrows | mc1322x-hal/src/aes.rs:264-272 | copying bytes into the partial block continues the stream, feeding a block exactly when it fills |
| Aes.StreamEnds | mc1322x-hal/src/aes.rs:347-349 | feeding the padded rest completes the stream's blocks |
| Aes.StreamNext | mc1322x-hal/src/aes.rs:344-346 | one more chunk takes the stream on by that chunk |
| Aes.CryptNext | mc1322x-hal/src/aes.rs:364-369 | writing the next chunk over a buffer in CTR mode up to there takes it one chunk further |
| Aes.RechunkedRoundTrip | mc1322x-hal/src/aes.rs:526-578 | a message sealed under one chunking of the AAD opens under any other |
| Aes.Aes.Transfer | mc1322x-hal/src/aes.rs:59-79 | blocks go through the registers unchanged |
| Aes.Aes.StartAndWait | mc1322x-hal/src/aes.rs:127-149 | waits out the operation, whose result is in the register of its mode only, and acknowledges it |
| Aes.Aes.LoadKey | mc1322x-hal/src/aes.rs:119-121 | the key register holds the key |
| Aes.Aes.CtrBlock | mc1322x-hal/src/aes.rs:200-208 | data XOR the cipher of the counter, leaving the MAC accumulator alone |
| Aes.Aes.CbcMacBlock | mc1322x-hal/src/aes.rs:213-222 | the accumulator holds the CBC-MAC of the blocks fed since the first |
| Aes.Aes.TopUp | mc1322x-hal/src/aes.rs:264-272 | one turn of the buffering loop continues the stream |
| Aes.Aes.FeedPadded | mc1322x-hal/src/aes.rs:262-274 | what was fed is the whole blocks of the stream so far, what is left is in the buffer, zero-padded |
| Aes.Aes.TotalLength | mc1322x-hal/src/aes.rs:334 | the AAD's length is that of its concatenation |
| Aes.Aes.FeedChunks | mc1322x-hal/src/aes.rs:344-346 | only the concatenation of the chunks matters, empty ones included |
| Aes.Aes.FeedAad | mc1322x-hal/src/aes.rs:340-350 | feeds the length-prefixed AAD, zero-padded to whole blocks |
| Aes.Aes.FeedMessage | mc1322x-hal/src/aes.rs:352-356 | feeds the message, zero-padded to whole blocks |
| Aes.Aes.CcmMac | mc1322x-hal/src/aes.rs:333-359 | the blocks fed are exactly B_0, the padded AAD with its two-byte length and the padded message (for lengths that fit two bytes, section 2.2 of RFC 3610), and the result is their CBC-MAC |
| Aes.Aes.CryptChunk | mc1322x-hal/src/aes.rs:364-369 | one chunk in place, XORed with its own cipher block; the rest of the buffer and the MAC are untouched |
| Aes.Aes.CcmCtrCrypt | mc1322x-hal/src/aes.rs:363-371 | CTR mode in place |
| Aes.Aes.EncryptInPlace | mc1322x-hal/src/aes.rs:526-547 | buffer and tag are the CCM encryption of the old buffer under the concatenated AAD; each byte of the buffer is the old one plus, bit by bit, that of the cipher of its counter block, and each of the tag that of the CBC-MAC plus that of the cipher of counter block 0 |
| Aes.Aes.DecryptInPlace | mc1322x-hal/src/aes.rs:549-578 | succeeds exactly when the tag is the CCM tag of the recovered text, which is then in the buffer, related to the old one and the tag bit by bit in the same way; otherwise the buffer is all zeros |
| Cop.FromMillisIsLeast | mc1322x-hal/src/watchdog.rs:87-103 | the least setting that lasts, `None` exactly when there is none, and no 32-bit overflow |
| Cop.FromMillisInvertsAsMillis | mc1322x-hal/src/watchdog.rs:89-131 | every setting comes back from its rounded-down milliseconds, 87 for the least and 11184 for the greatest |
| Cop.MillisOfSaturates | mc1322x-hal/src/watchdog.rs:269-277 | the conversion through seconds saturates and does not change the outcome |
| Cop.TicksAdd | mc1322x-hal/src/watchdog.rs:19-52 | a running timer resets the chip exactly when it has counted its period since the last service, however that time is divided |
| Cop.LockedIsFrozen | mc1322x-hal/src/watchdog.rs:216-221 | once locked, no write changes anything, and the timer goes on with the time-out it has |
| Cop.Watchdog.Feed | mc1322x-hal/src/watchdog.rs:192-194 | restarts the count |
| Cop.Watchdog.Stop | mc1322x-hal/src/watchdog.rs:179-188 | stops the timer unless locked, keeping its setting; refuses and changes nothing if locked; the chip is reset only if the timer was about to expire |
| Cop.Watchdog.Start | mc1322x-hal/src/watchdog.rs:152-172 | runs with the new time-out from zero, whatever count it was stopped at; refuses if locked; the chip is reset only if the timer was about to expire |
| Cop.Watchdog.Lock | mc1322x-hal/src/watchdog.rs:216-221 | freezes the configuration; the chip is reset only if the timer was about to expire |
| TaskWatchdog.StepValid | mc1322x-embassy/src/task_watchdog.rs:226-233 | no task was ever fed in the future, so elapsed-time subtraction never underflows |
| TaskWatchdog.NowIsWholeMillis | mc1322x-embassy/src/task_watchdog.rs:226-233 | the clock shows whole milliseconds of 24000 cycles |
| TaskWatchdog.RunExtends | mc1322x-embassy/src/task_watchdog.rs:271-344 | a run continued by one event is the run and then that event's step |
| TaskWatchdog.LockedRunKeepsCop | mc1322x-hal/src/watchdog.rs:216-221 | over every run a locked COP keeps running as it was, with the time-out it has |
| TaskWatchdog.StartArmsCop | mc1322x-embassy/src/task_watchdog.rs:347-358 | a start makes the COP reset the chip exactly the time-out asked for later, unless serviced |
| TaskWatchdog.StepLeavesAlone | mc1322x-embassy/src/task_watchdog.rs:335-344 | a step that does not concern a task leaves its count, and services the COP only before its deadline |
| TaskWatchdog.UntouchedKeepsTask | mc1322x-embassy/src/task_watchdog.rs:311-319 | a run that does not touch a task keeps its count |
| TaskWatchdog.DeregisteredTaskIsGone | mc1322x-embassy/src/task_watchdog.rs:297-307 | a deregistered task is not in the table again, so cannot starve, until it is registered again; the others stay as they are |
| TaskWatchdog.RegisteredKeepsLimit | mc1322x-embassy/src/task_watchdog.rs:208-216 | a run that does not register a task anew keeps its limit |
| TaskWatchdog.FedTaskStarvesAtLimit | mc1322x-embassy/src/task_watchdog.rs:219-233 | after a feed, whatever came between it and the registration and whatever the setup phase was, the task is starved if and only if `timeout * (retries + 1)` ticks, saturating, have passed, over any run that leaves it alone |
| TaskWatchdog.NewTaskStarvesAtSetup | mc1322x-embassy/src/task_watchdog.rs:208-234 | before any feed a bounded setup phase is starved exactly from its own time-out, an unbounded one never, and without one the limit applies |
| TaskWatchdog.StartedTaskStarvesAtSetup | mc1322x-embassy/src/task_watchdog.rs:347-353 | starting the COP counts every task anew from then, setup phases kept |
| TaskWatchdog.StarvedTaskStopsService | mc1322x-embassy/src/task_watchdog.rs:335-344 | over every run that leaves a task alone, no check made at or after its deadline services the COP |
| TaskWatchdog.StarvedTaskResets | mc1322x-embassy/src/task_watchdog.rs:331-358 | a starved task always leads to a reset, within one COP period, and the time a check takes, of its deadline |
| TaskWatchdog.HealthyRunNeverResets | mc1322x-embassy/src/task_watchdog.rs:335-377 | if every check finds every task within its limit and checks come within the hardware time-out, the COP never expires |
| TaskWatchdog.TableOfShows | mc1322x-embassy/src/task_watchdog.rs:236-246 | the map the slot array stands for has exactly the tasks in the slots |
| TaskWatchdog.ShowsOnlyOne | mc1322x-embassy/src/task_watchdog.rs:236-246 | the slots stand for one map only |
| TaskWatchdog.RoomIffFreeSlot | mc1322x-embassy/src/task_watchdog.rs:281-291 | the map has fewer than N tasks exactly when a slot is free |
| TaskWatchdog.SlotFilled | mc1322x-embassy/src/task_watchdog.rs:285-292 | replacing a task in its slot, or filling a free one with a new id, updates the map at that id and keeps ids unique |
| TaskWatchdog.SlotCleared | mc1322x-embassy/src/task_watchdog.rs:297-307 | clearing a task's slot removes just that id |
| TaskWatchdog.SlotsRestarted | mc1322x-embassy/src/task_watchdog.rs:350-353 | restarting the counts slot by slot restarts every task of the map, setup phases kept |
| TaskWatchdog.WatchdogRunner.constructor | mc1322x-embassy/src/task_watchdog.rs:260-268 | no task is monitored |
| TaskWatchdog.WatchdogRunner.Find | mc1322x-embassy/src/task_watchdog.rs:243-245 | the task's slot if the map has the id, past the end exactly if not |
| TaskWatchdog.WatchdogRunner.FindFree | mc1322x-embassy/src/task_watchdog.rs:290 | a free slot, or all are taken |
| TaskWatchdog.WatchdogRunner.RegisterTask | mc1322x-embassy/src/task_watchdog.rs:283-294 | takes the Register step, counting from a clock reading that may be older than the table access; fails exactly when the id is absent and all slots are taken |
| TaskWatchdog.WatchdogRunner.DeregisterTask | mc1322x-embassy/src/task_watchdog.rs:297-307 | takes the Deregister step |
| TaskWatchdog.WatchdogRunner.FeedTask | mc1322x-embassy/src/task_watchdog.rs:311-319 | takes the Feed step, which `FedTaskStarvesAtLimit` is about; nothing for an unknown id |
| TaskWatchdog.WatchdogRunner.CheckTasks | mc1322x-embassy/src/task_watchdog.rs:335-344 | takes the Check step: services the COP exactly if no task has starved, and says whether one has |
| TaskWatchdog.WatchdogRunner.Start | mc1322x-embassy/src/task_watchdog.rs:347-358 | panics exactly on an impossible time-out or a locked COP; otherwise takes the Start step with the converted hardware time-out, unless a COP about to expire resets the chip first |
| Framing.Value16OfLe16 | mc1322x-ssl/src/main.rs:236-238 | 16-bit little-endian round trip |
| Framing.Value32OfLe32 | mc1322x-ssl/src/main.rs:133 | 32-bit little-endian round trip |
| Framing.Le32OfValue32 | mc1322x-ssl/src/main.rs:133 | and the other way round |
| Framing.FrameBytes | mc1322x-ssl/ssl_protocol.py:42-45 | 0x55, the length with its low byte first, the command, and its sum mod 256 |
| Framing.NoiseIsSkipped | mc1322x-ssl/src/main.rs:225-234 | anything but a start byte is skipped |
| Framing.BodyReads | mc1322x-ssl/src/main.rs:236-253 | a frame body is accepted exactly when its last byte is the command's checksum, and consumed whole either way |
| Framing.FrameIsRead | mc1322x-ssl/ssl_protocol.py:42-70 | both readers get the command out of an encoded frame behind noise, and consume exactly its bytes; the loader refuses exactly the frames whose command is empty or longer than 1032 bytes |
| Framing.FrameAlone | mc1322x-ssl/ssl_protocol.py:48-70 | a frame alone on the line is read as its command, with nothing left over |
| Framing.StreamRoundTrip | mc1322x-ssl/src/main.rs:222-254 | from any sequence of commands of 1 to 1032 bytes with noise between them the loader recovers exactly those commands |
| Framing.SumOfUpdate | mc1322x-ssl/ssl_protocol.py:44 | changing a byte changes the sum by the difference |
| Framing.ChecksumOfUpdate | mc1322x-ssl/ssl_protocol.py:44 | changing one byte always changes the checksum |
| Framing.OneChangedByteIsRejected | mc1322x-ssl/src/main.rs:245-251 | a frame with one changed command or checksum byte is rejected by both readers, which resume right behind it |
| Flash.Nvm.Erase | mc1322x-hal/src/nvm.rs:180-194 | the sector bits cover exactly the range; bad ranges are refused and change nothing; what the ROM reports is passed on |
| Flash.Nvm.Write | mc1322x-hal/src/nvm.rs:196-208 | stores on erased cells, refuses out of bounds, never touches other cells, and passes on what the ROM reports |
| Flash.SectorsCover | mc1322x-hal/src/nvm.rs:182-185 | a cell's sector is in the folded bit field exactly when the cell is in the range, and every bit fits 32 |
| Flash.RangesAccepted | mc1322x-hal/src/nvm.rs:170-205 | reads and writes within the 128 KiB and erases of whole sectors of it are accepted, empty ones included, and no others |
| Loader.DiagnosticIsNoSof | mc1322x-ssl/src/main.rs:159-166 | the error text on the same line can never be taken for a frame start |
| Loader.ConfirmBytes | mc1322x-ssl/src/main.rs:266-297 | a Confirm is the six bytes 0x55, 2, 0, 0xF0, status, sum |
| Loader.ConfirmsOnTheWire | mc1322x-ssl/src/main.rs:246-297 | the four confirmations byte by byte: success, failed write, wrong checksum, anything else |
| Loader.HexReadsBack | mc1322x-ssl/src/main.rs:65-70 | the hexadecimal digits of a number, in lower case, stand for it |
| Loader.DiagnosticText | mc1322x-ssl/src/main.rs:159-166 | the text sent with a failed write is "WRITE_ERR code=0x", the ROM's code in eight hexadecimal digits, and a line end |
| Loader.WriteReplyText | mc1322x-ssl/src/main.rs:156-178 | a failed write is answered by that text, with the code 0xb0000000 if it was out of bounds, and then the confirmation |
| Loader.EraseRangeAccepted | mc1322x-ssl/src/main.rs:132-140 | exactly which erase addresses are carried out, which of them erase the reserved sector, and that the whole-chip address stands for the 31 sectors before it |
| Loader.SignatureBytes | mc1322x-ssl/src/main.rs:183-190 | "SECU" for 0xC3, "OKOK" for 0x3C, and a refusal for any other security byte |
| Loader.StoredHeader | mc1322x-ssl/src/main.rs:191-195 | storing the header over blank cells leaves that signature and the length, low byte first |
| Loader.ReadIsHandled | mc1322x-ssl/src/main.rs:204-212 | a read leaves the flash alone, and answers with the bytes or an error by the bounds |
| Loader.ReadIsAnswered | mc1322x-ssl/src/main.rs:204-212 | the host gets, on a healthy part, up to 1024 of the bytes asked for, and for a read beyond the flash an error |
| Loader.OtherCommandsAreRefused | mc1322x-ssl/src/main.rs:132-213 | anything but the four requests, each of its own length, is answered by an execution error and leaves the flash alone |
| Loader.Loader.Receive | mc1322x-ssl/src/main.rs:260 | `read` gives any positive number of the waiting bytes, in order |
| Loader.Loader.ReadExact | mc1322x-ssl/src/main.rs:256-264 | fills the buffer with exactly the next bytes, however they arrive |
| Loader.Loader.ScanForSof | mc1322x-ssl/src/main.rs:225-234 | stops right behind the next start byte |
| Loader.Loader.SumOf | mc1322x-ssl/src/main.rs:247 | the wrapping fold is the sum mod 256 |
| Loader.Loader.SendConfirm | mc1322x-ssl/src/main.rs:266-297 | sends the frame of a Confirm |
| Loader.Loader.SendReadResponse | mc1322x-ssl/src/main.rs:270-287 | sends the frame of a Read Response |
| Loader.Loader.ReadFrame | mc1322x-ssl/src/main.rs:222-254 | refines the reader of `Framing`, answering only bad checksums |
| Loader.Loader.HandleErase | mc1322x-ssl/src/main.rs:132-149 | erases the range named, or nothing, and confirms exactly what came of it, ROM failures included |
| Loader.Loader.HandleWrite | mc1322x-ssl/src/main.rs:150-179 | writes if the length field agrees; confirms success exactly if the flash reported it, and otherwise sends the error as text first |
| Loader.Loader.HandleCommit | mc1322x-ssl/src/main.rs:180-203 | confirms success exactly if the flash reported it, over blank cells then having stored the bytes "SECU" for 0xC3 or "OKOK" for 0x3C and the length; refuses any other security byte |
| Loader.Loader.HandleRead | mc1322x-ssl/src/main.rs:204-212 | answers with the bytes read, at most 1024, or with an error if out of bounds or the ROM failed |
| Loader.Loader.Serve | mc1322x-ssl/src/main.rs:124-215 | one iteration: the reaction to the next frame, and nothing to the flash without one |
| FlashHost.WriteCommandFields | mc1322x-ssl/flash_host.py:68-73 | where the loader finds address, length and data |
| FlashHost.CommitCommandFields | mc1322x-ssl/flash_host.py:80-84 | where the loader finds length and security byte |
| FlashHost.EraseCommandFields | mc1322x-ssl/flash_host.py:60 | where the loader finds the whole-chip address |
| FlashHost.CommandBytes | mc1322x-ssl/flash_host.py:60-84 | the bytes of the three commands |
| FlashHost.NextChunk | mc1322x-ssl/flash_host.py:65-76 | each chunk goes to cells still blank, behind the header and the chunks before it |
| FlashHost.HeaderIsBlank | mc1322x-ssl/ssl_protocol.py:35-39 | writing the image leaves the header's cells blank |
| FlashHost.FlashedCell | mc1322x-ssl/ssl_protocol.py:35-39 | what each cell holds in the end |
| FlashHost.FlashedLayout | mc1322x-ssl/ssl_protocol.py:35-39 | signature, little-endian length, image from offset 8; the last sector untouched if the image ends before it (AN3860 Table 1) |
| FlashHost.FlashedHolds | mc1322x-ssl/ssl_protocol.py:35-39 | flash that was flashed with room holds "SECU" or "OKOK" by the security byte, the length, and the image from offset 8 |
| FlashHost.ConfirmIsRead | mc1322x-ssl/ssl_protocol.py:73-81 | the host reads the status of a Confirm behind any text, and nothing is left over |
| FlashHost.WriteReplyIsRead | mc1322x-ssl/ssl_protocol.py:73-81 | the host takes a write as confirmed exactly if the flash reported success, error text or not |
| FlashHost.EraseIsHandled | mc1322x-ssl/src/main.rs:132-149 | the whole-chip command erases all but the last sector and is answered by the outcome |
| FlashHost.Exchange | mc1322x-ssl/flash_host.py:74-75 | one command served by the loader's code and its answer read by the host's |
| FlashHost.SendErase | mc1322x-ssl/flash_host.py:60-61 | confirmed exactly if the ROM reported success, which it does on a healthy part; then all but the last sector is erased |
| FlashHost.SendWrite | mc1322x-ssl/flash_host.py:68-75 | the host sees the write's real outcome |
| FlashHost.SendCommit | mc1322x-ssl/flash_host.py:80-85 | confirmed exactly if the security byte is one of the two and the ROM reported success; an unknown one writes nothing |
| FlashHost.CommitImage | mc1322x-ssl/flash_host.py:80-85 | with room, confirmed only if the flash then holds "SECU" or "OKOK" by the security byte, the length and the image |
| FlashHost.FlashImage | mc1322x-ssl/flash_host.py:56-85 | for every security byte: with room, on a healthy part every step is confirmed exactly if it is 0xC3 or 0x3C, and on any part every step being confirmed means the flash holds "SECU" or "OKOK" respectively, the length and the image; an image too long for the flash is never reported as flashed; and whatever happens the last sector is kept if the image ends before it; it is written in chunks of 512 bytes |
| Interrupts.ReleaseKeeps | mc1322x-hal/src/critical_section_impl.rs:29-32 | leaving a nested section changes neither the invariant nor what the enable will end up as |
| Interrupts.UnwindEnables | mc1322x-hal/src/critical_section_impl.rs:20-32 | once all sections have ended the enable is what it was before the first |
| SpiWait.SectionKeepsInv | mc1322x-hal/src/critical_section_impl.rs:20-32 | entering and leaving sections keeps the invariant although entry is not atomic |
| SpiWait.StepKeepsInv | mc1322x-hal/src/spi.rs:158-179 | so does every other step of task, handler and hardware |
| SpiWait.NoWakeUpIsLost | mc1322x-hal/src/spi.rs:158-179 | in every interleaving a pending transfer is still being shifted or complete, and holds the sleep guard, which nothing holds without a transfer; and if unscheduled, has its waker stored and its channel on or about to be restored |
| SpiWait.CompletionIsDelivered | mc1322x-hal/src/spi.rs:281-287 | a parked transfer is complete or can complete; once complete, its handler can run when sections end, and schedules the task |
| SpiWait.PollSettles | mc1322x-hal/src/spi.rs:158-179 | a poll undisturbed ends the transfer, clears `SPI_INT` and drops the guard if it finds the completion, and otherwise parks with waker and guard; either way its interrupt is on afterwards |
| SpiWait.HandlerWakesOnce | mc1322x-hal/src/spi.rs:281-287 | the handler turns its channel off, so is not re-entered, leaves `SPI_INT` for the task, and takes the waker to wake it |
| SpiWait.CompletedTransferFinishes | mc1322x-hal/src/spi.rs:158-179 | so in every run a parked transfer finishes: completion, handler, poll, over |
| SpiWait.RunKeepsOnlyOwn | mc1322x-hal/src/spi.rs:158-179 | in every run without drops the transfer under way is the only one being shifted or complete |
| SpiWait.OwnCompletionWithoutDrops | mc1322x-hal/src/spi.rs:158-179 | so in every such run a transfer resolves only on its own completion |
| SpiWait.StaleCompletion | mc1322x-hal/src/spi.rs:124-144 | a transfer begun while the SPI is not at rest can find a completion that is not its own |
| SpiWait.ResolvesOnOwnIffAtRest | mc1322x-hal/src/spi.rs:124-144 | a transfer resolves on its own completion in every run if and only if the SPI is idle and `SPI_INT` clear when it begins |
| SpiWait.DropLeavesStaleCompletion | mc1322x-hal/src/spi.rs:158-179 | dropping a pending transfer always leaves a completion for the next one to find |
| SpiWait.StaleCompletionResolves | mc1322x-hal/src/spi.rs:124-144 | a concrete run in which a transfer resolves with its own byte still to be shifted |
| SpiWait.ArmingInsideWouldBeUndone | mc1322x-hal/src/spi.rs:162-164 | arming inside the critical section would leave the channel off |
| UartWait.FifoKeepsInv | mc1322x-hal/src/uart.rs:315-355 | FIFO changes at any point keep the invariant |
| UartWait.TaskKeepsInv | mc1322x-hal/src/uart.rs:226-262 | starting, re-polling, waking and dropping waits keep it |
| UartWait.SectionKeepsInv | mc1322x-hal/src/critical_section_impl.rs:20-32 | entering and leaving critical sections keeps it |
| UartWait.WaitKeepsInv | mc1322x-hal/src/uart.rs:228-240 | the check, the stored waker and the unmasking read-modify-write keep it, the other side's mask bit included |
| UartWait.HandlerKeepsInv | mc1322x-hal/src/uart.rs:362-382 | every register access of the handler keeps it |
| UartWait.StepKeepsInv | mc1322x-hal/src/uart.rs:226-382 | every step keeps it |
| UartWait.NoWakeUpIsLost | mc1322x-hal/src/uart.rs:226-262 | in every interleaving a pending, unscheduled reader or writer can be woken, and holds the sleep guard, which nothing holds without a wait |
| UartWait.OthersInPass | mc1322x-hal/src/uart.rs:362-382 | FIFOs filling and wakes in the middle of a pass do not disturb it |
| UartWait.HandlerInPass | mc1322x-hal/src/uart.rs:362-382 | each access of the handler takes the pass one step on |
| UartWait.RunInPass | mc1322x-hal/src/uart.rs:362-382 | so every pass, whatever comes in between, gets to its end |
| UartWait.HandlerPassSettles | mc1322x-hal/src/uart.rs:357-382 | every pass, with FIFOs filling at any point of it, masks each source asserted when it read the status and schedules the task waiting for it, and changes no other mask bit or waker |
| UartWait.PassMasksMore | mc1322x-hal/src/uart.rs:357-382 | every pass leaves fewer sources unmasked, and only one that filled after the status was read can still be asserted, so the handler is not re-entered forever |
| UartWait.PassExists | mc1322x-hal/src/uart.rs:357-382 | whenever the interrupt is asserted and enabled, the handler's accesses in order are a pass |
| UartWait.PassIsNotStuck | mc1322x-hal/src/uart.rs:362-382 | wherever the handler is, its next access is possible, and nothing else takes it back |
| UartWait.WaitIsServed | mc1322x-hal/src/uart.rs:362-382 | an unmasked asserted source interrupts, and every pass then schedules its task |
| UartWait.ReadinessIsDelivered | mc1322x-hal/src/uart.rs:219-262 | in every run a wait whose condition holds is scheduled, by every pass of the handler, once open sections end; `ReadyWaitFinishes` takes it from there |
| UartWait.PollChecks | mc1322x-hal/src/uart.rs:228-236 | a poll up to its check either finds the condition or has stored its waker and taken the guard |
| UartWait.PollUnmasks | mc1322x-hal/src/uart.rs:236-240 | the rest of a poll that must wait unmasks its source only, and leaves the section |
| UartWait.PollSettles | mc1322x-hal/src/uart.rs:226-262 | from every reachable state, a poll undisturbed ends its wait and drops the guard if its FIFO condition holds, and otherwise parks with waker, guard and its source unmasked; all else is as before |
| UartWait.PollTakesItsCourse | mc1322x-hal/src/uart.rs:226-262 | how far a poll is depends only on what its check found, whatever comes in between |
| UartWait.PollEnds | mc1322x-hal/src/uart.rs:226-262 | however interleaved, a poll that has left its section has ended its wait if its check found the condition, and is parked if not |
| UartWait.PollIsNotStuck | mc1322x-hal/src/uart.rs:226-262 | a poll under way can always take its next access |
| UartWait.PassKeepsReady | mc1322x-hal/src/uart.rs:362-382 | a pass of the handler takes nothing out of a FIFO |
| UartWait.UnwoundInv | mc1322x-hal/src/critical_section_impl.rs:20-32 | ending the open sections keeps everything in order |
| UartWait.ReadyWaitFinishes | mc1322x-hal/src/uart.rs:226-262 | so in every run a wait whose condition holds finishes: the handler schedules its task, the task can be polled, and that poll ends the wait |
| UartWait.FilledWaitFinishes | mc1322x-hal/src/uart.rs:226-382 | in particular from every reachable state with a parked wait: its FIFO fills, the handler runs, the task is polled, and the wait is over |
| I2c.FetchesRefuseLast | mc1322x-hal/src/i2c.rs:254-265 | a read fetches as many bytes as it was asked for, and refuses the one after the last of them exactly if it is the last of the transaction, and no other |
| I2c.PartCounts | mc1322x-hal/src/i2c.rs:417-434 | the STARTs and refusals of one operation |
| I2c.PlannedGrows | mc1322x-hal/src/i2c.rs:412-436 | what one more operation adds to the STARTs, repeated STARTs and refusals of a transaction |
| I2c.PlanCounts | mc1322x-hal/src/i2c.rs:412-436 | a transaction has one START, a repeated START for each change of direction and none besides, and one refusal if it ends by reading |
| I2c.PlanSends | mc1322x-hal/src/i2c.rs:431-433 | all written bytes, in order |
| I2c.ReceivingIsHeard | mc1322x-hal/src/i2c.rs:251-272 | the device sends as many bytes as asked for, after the last of which, at the end of a transaction, it is refused one that is waited out |
| I2c.WriteIsHeard | mc1322x-hal/src/i2c.rs:417-432 | a write after another goes on with it; after a read, or first, it begins with an address byte |
| I2c.ReadIsHeard | mc1322x-hal/src/i2c.rs:417-430 | a read after another goes on with it; after a write, or first, it begins with an address byte, which is not taken for data |
| I2c.PlanIsHeard | mc1322x-hal/src/i2c.rs:403-439 | what the device makes of a transaction is what was asked for: adjacent operations in one direction as one, with all bytes written and the number to read, one address byte between directions, and exactly the byte after the last one read refused and waited out |
| I2c.FailureInFirst | mc1322x-hal/src/i2c.rs:190-291 | a failure ends the whole transaction where it ends its part |
| I2c.FollowsNext | mc1322x-hal/src/i2c.rs:413-436 | one part followed by the next is the plan of both |
| I2c.NextPart | mc1322x-hal/src/i2c.rs:413-436 | a part either extends what was done or fails the plan |
| I2c.PlanNext | mc1322x-hal/src/i2c.rs:413-436 | the plan of the first i + 1 operations is that of the first i and the next part |
| I2c.NextOperation | mc1322x-hal/src/i2c.rs:413-436 | the same for one operation of the list |
| I2c.CutCounts | mc1322x-hal/src/i2c.rs:112-135 | cutting a transaction short and releasing the bus adds one STOP and no other event |
| I2c.BegunCounts | mc1322x-hal/src/i2c.rs:417-418 | a trace that begins with a START has one |
| I2c.TraceCounts | mc1322x-hal/src/i2c.rs:403-439 | every non-empty transaction, however it ends, has exactly one START, exactly one STOP, which is last, and no more repeated STARTs than changes of direction; exactly as many if it succeeds |
| I2c.TraceSends | mc1322x-hal/src/i2c.rs:403-439 | written bytes go out in order up to the failure, all of them if there is none |
| I2c.TraceIsHeard | mc1322x-hal/src/i2c.rs:403-439 | so a transaction that succeeds has been just that to the device, then a STOP |
| I2c.I2c0.WaitByte | mc1322x-hal/src/i2c.rs:140-163 | losing arbitration is reported and releases the bus at once; a refusal is left for the caller to see |
| I2c.I2c0.SendAddress | mc1322x-hal/src/i2c.rs:190-220 | START or repeated START and address go out first, whatever then happens; a refusal releases the bus |
| I2c.I2c0.TransmitData | mc1322x-hal/src/i2c.rs:223-237 | the bytes in order up to the first refusal, which releases the bus |
| I2c.I2c0.FetchBytes | mc1322x-hal/src/i2c.rs:277-286 | the bytes fetched up to a lost arbitration, the last one refused if asked |
| I2c.I2c0.ContinueReceive | mc1322x-hal/src/i2c.rs:275-291 | and the refused byte is waited out |
| I2c.I2c0.ReceiveData | mc1322x-hal/src/i2c.rs:244-272 | and the address byte is discarded first |
| I2c.I2c0.Open | mc1322x-hal/src/i2c.rs:417-421 | START first, repeated START on a change of direction, nothing otherwise; it has gone out however this ends |
| I2c.I2c0.Transfer | mc1322x-hal/src/i2c.rs:423-434 | the operation's bytes, continuing a receive only after a read |
| I2c.I2c0.Perform | mc1322x-hal/src/i2c.rs:413-436 | one operation follows its part of the plan |
| I2c.I2c0.PerformNext | mc1322x-hal/src/i2c.rs:413-436 | the next operation extends the plan, or fails it |
| I2c.I2c0.PerformAll | mc1322x-hal/src/i2c.rs:412-436 | all operations follow the plan up to the first failure |
| I2c.I2c0.Transaction | mc1322x-hal/src/i2c.rs:403-439 | nothing for an empty list; otherwise a START, the plan up to the first failure the bus reports, which is the error returned, or to its end if and only if there is none, and one STOP; after a success the STOP waits for the last byte, unless an empty read comes last |
| Radio.TransmitSliceInRangeIffNotEmpty | mc1322x-radio/src/radio.rs:359-368 | the bytes to send lie within the slice if and only if it is not empty |
| Radio.PsduByPhr | mc1322x-radio/src/radio.rs:357-368 | the PSDU is the PHR less two bytes long: `bytes[1..PHR - 1]` for a PHR of 2 to 127 within the slice, empty below, cut at 125 bytes or the slice otherwise |
| Radio.DeliveryIsLaidOut | mc1322x-radio/src/radio.rs:303-307 | a delivery is the length with FCS, the PSDU, at most 125 bytes of it, and the rest of the buffer as it was |
| Radio.DeliveredIsSendable | mc1322x-radio/src/radio.rs:303-368 | a received frame handed to `prepare_transmit` in the same buffer is queued with the same PSDU |
| Radio.PushedInQueue | mc1322x-radio/src/radio.rs:524-539 | a pushed packet is owned once more by the queue |
| Radio.ReceiveConserves | mc1322x-radio/src/radio.rs:270-311 | `receive` passes every packet on to exactly one owner |
| Radio.TransmitConserves | mc1322x-radio/src/radio.rs:332-371 | so does `prepare_transmit` |
| Radio.StepConserves | mc1322x-radio/src/radio.rs:243-422 | so does every event: none is lost, duplicated or freed twice |
| Radio.PushKeepsOrder | mc1322x-radio/src/radio.rs:524-539 | queueing a frame keeps the counter right and the order of arrival |
| Radio.PopKeepsOrder | mc1322x-radio/src/radio.rs:597-610 | so does taking one off |
| Radio.StepKeepsOrder | mc1322x-radio/src/radio.rs:243-422 | so does every event |
| Radio.StepKeepsBuffer | mc1322x-radio/src/radio.rs:69-90 | a buffer is only held while its caller has promised to keep it |
| Radio.StepKeepsChannel | mc1322x-radio/src/radio.rs:560-570 | the cached channel is the one the MACA is on, resets included |
| Radio.StepKeepsInv | mc1322x-radio/src/radio.rs:56-67 | every event, drops and cancellations included, keeps the invariant |
| Radio.RunKeepsInv | mc1322x-radio/src/radio.rs:243-422 | over every run: packet ownership is conserved, `rx_pending` is the queue's length outside the callback, frames are taken in order of arrival, the driver only holds a buffer its caller still keeps valid, and the cached channel is the MACA's |
| Radio.EveryPacketHasOneOwner | mc1322x-radio/src/radio.rs:572-631 | in every run from start-up each pool packet has exactly one owner |
| Radio.ReceiveDelivers | mc1322x-radio/src/radio.rs:270-311 | `receive` reporting a frame has put the oldest untaken one, PHR first, into the prepared buffer and no other; otherwise nothing is written; resolved either way, no buffer is kept |
| Radio.BufferIsKept | mc1322x-radio/src/radio.rs:243-311 | a prepared buffer stays prepared over any run in which the receive is neither resolved, dropped nor cancelled |
| Radio.ReleasedBufferIsNotWritten | mc1322x-radio/src/radio.rs:56-67 | once a receive is dropped or the radio switched, no buffer is written over any run until the next is prepared, and no cancellation is left over |
| Radio.GetReceivedTakesOldest | mc1322x-radio/src/radio.rs:597-610 | the non-blocking receive takes the oldest frame there is, and frees its packet |
| Radio.PreparedReceiveDelivers | mc1322x-radio/src/radio.rs:243-311 | from its preparation on, over any such run, a receive is pending exactly as long as every frame has been taken, and the poll that finds one leaves its length and PSDU in the buffer prepared |
| Radio.TransmitIsQueued | mc1322x-radio/src/radio.rs:332-371 | exactly when the pool has a packet, the PSDU is queued last, on the channel asked for: the bytes behind the PHR, as many as it says less two, and no more than 125 or the slice holds; an old cancellation is forgotten |
| Radio.ReportsStatus | mc1322x-radio/src/radio.rs:401-406 | a poll of `transmit` reports a recorded status and forgets it |
| Radio.StatusIsKept | mc1322x-radio/src/radio.rs:389-422 | a recorded status survives everything but another one, a cancellation and the poll that reports it |
| Radio.VerdictIsReported | mc1322x-radio/src/radio.rs:546-558 | the MACA's verdict reaches the next poll of `transmit`, over any run in between, and is reported once |
| Radio.CancellationIsKept | mc1322x-radio/src/radio.rs:378-387 | a cancellation survives every event but the polls, preparations, drops and switches that end it |
| Radio.CancellationIsReported | mc1322x-radio/src/radio.rs:378-387 | a cancelled receive or transmit reports false at its next poll, over any run in between, frames waiting or not, unless the MACA gave a verdict since; and only once |
| Radio.PhrGoesFirst | mc1322x-radio/src/radio.rs:303-307 | copying behind the first byte and then writing the PHR there gives the frame layout |
| Radio.Mc1322xRadio.constructor | mc1322x-radio/src/radio.rs:108-121 | starts idle, in order |
| Radio.Mc1322xRadio.RxCallback | mc1322x-radio/src/radio.rs:530-539 | takes the receive callback's step, and wakes the stored waker if there is one |
| Radio.Mc1322xRadio.TxCallback | mc1322x-radio/src/radio.rs:546-558 | takes the transmit callback's step, and wakes the stored waker if there is one |
| Radio.Mc1322xRadio.PopReceivePacket | mc1322x-radio/src/radio.rs:597-610 | the oldest packet if counter and queue both have one, the counter following; otherwise nothing changes |
| Radio.Mc1322xRadio.CopyReceivedPsdu | mc1322x-radio/src/radio.rs:618-631 | the clamped PSDU behind the first byte, nothing else written, the packet freed |
| Radio.Mc1322xRadio.Deliver | mc1322x-radio/src/radio.rs:291-308 | the frame in the prepared buffer if there is one, discarded if not; packet and buffer are let go of |
| Radio.Mc1322xRadio.PrepareReceive | mc1322x-radio/src/radio.rs:243-254 | takes its step: the buffer is lent and an old cancellation forgotten |
| Radio.Mc1322xRadio.Receive | mc1322x-radio/src/radio.rs:270-311 | takes its step, with the outcome `ReceiveDelivers` is about |
| Radio.Mc1322xRadio.DropReceive | mc1322x-radio/src/radio.rs:56-67 | takes its step: no buffer survives the future |
| Radio.Mc1322xRadio.Send | mc1322x-radio/src/radio.rs:357-368 | queues the caller's bytes in the claimed packet unless the slice is empty |
| Radio.Mc1322xRadio.PrepareTransmit | mc1322x-radio/src/radio.rs:326-372 | waits exactly when there is no free packet, panics exactly when there is one but the slice is empty, and otherwise takes its step: claims a free packet and queues the frame |
| Radio.Mc1322xRadio.Transmit | mc1322x-radio/src/radio.rs:393-422 | takes its step: a recorded status wins over a cancellation |
| Radio.Mc1322xRadio.CancelCurrentOperation | mc1322x-radio/src/radio.rs:378-387 | takes its step, and wakes the stored waker if there is one |
| Radio.Mc1322xRadio.SwitchRadio | mc1322x-radio/src/radio.rs:194-231 | takes its step: enabling or disabling releases any prepared buffer |
| RadioWait.SlotIsWaker | mc1322x-radio/src/radio.rs:270-422 | the waker slot followed for the futures is the driver's |
| RadioWait.CanFinishIff | mc1322x-radio/src/radio.rs:270-422 | what the wake-ups are for: polling then resolves, or queues the frame, and otherwise does not |
| RadioWait.PollIsUsedUp | mc1322x-radio/src/radio.rs:270-422 | a poll uses up what scheduled it, and leaves its future waiting, with its waker stored, exactly if it could not finish |
| RadioWait.DropIsForgotten | mc1322x-radio/src/radio.rs:56-67 | a dropped future waits no more, and a dropped `receive` leaves no waker |
| RadioWait.StepForgetsNone | mc1322x-radio/src/radio.rs:270-422 | every event through one handle leaves each waiting future scheduled, or with its waker stored and nothing to wake up for |
| RadioWait.NoWakeUpIsLost | mc1322x-radio/src/radio.rs:270-422 | so does every run: a pending `receive`, `prepare_transmit` or `transmit` is scheduled as soon as polling it would get anywhere |
| RadioWait.QueuedFrameIsNoticed | mc1322x-radio/src/radio.rs:524-539 | in every such run from start-up, a pending `receive` has been scheduled once a frame is queued |
| RadioWait.SecondFutureIsForgotten | mc1322x-radio/src/radio.rs:100-101 | if `transmit` is polled while `receive` waits, the next frame does not schedule the latter |
| RadioTransmit.StepKeepsFrames | mc1322x-radio/src/radio.rs:579-594 | every event queues frames at the end and sends them from the front |
| RadioTransmit.FramesInOrder | mc1322x-radio/src/radio.rs:579-594 | over every run the frames sent and those still queued are those queued, in order |
| RadioTransmit.StepKeepsStatuses | mc1322x-radio/src/radio.rs:393-422 | with one frame out at a time and no cancellation, each status recorded is reported before the next |
| RadioTransmit.StatusesInOrder | mc1322x-radio/src/radio.rs:393-422 | over every such run the statuses reported and the one left are those the MACA gave, in order |
| RadioTransmit.VerdictForEach | mc1322x-radio/src/radio.rs:546-558 | each frame sent has a status |
| RadioTransmit.VerdictsBelong | mc1322x-radio/src/radio.rs:393-422 | in every run without cancellation in which each `transmit` is polled to its end, the k-th status reported is that of the k-th frame queued |
| RadioTransmit.NewTransmitIsPendingIff | mc1322x-radio/src/radio.rs:332-371 | after queueing a frame `transmit` is pending if and only if no status was left over |

## Left out

- FlashHost.FlashImage: nothing is promised for an image that fits the flash but reaches a reserved sector that is not blank, because what the ROM does with writes to programmed cells is not part of this model.
- Aes.Aes.EncryptInPlace: the panics on keys, nonces and tags of the wrong length are types and a precondition here.
- TaskWatchdog.WatchdogRunner.Start: after a panic, or a reset by a COP that was about to expire, nothing is said about the table.
- TimeDriver.TmrDriver.Init: the enable of the TMR interrupt in the interrupt controller is not modelled.
- Radio.Mc1322xRadio.CopyReceivedPsdu: the link quality, which only the `radio-hal` adapter uses, is not modelled.
- SleepyExecutor.SleepyExecutor.Loop: the endless loop is any number of iterations, and stops when the 64-bit tick count is about to run out.
- Radio.Mc1322xRadio.PrepareTransmit: nothing is said about the state after the panic on an empty slice (see above); `prepare_and_transmit` is its poll followed by that of `transmit`.
- SPI and UART waits and critical sections are state machines on values rather than classes: their code stops at every register access for the handler and other tasks' sections to come in between, which a method cannot show. One enable bit of `INTENABLE` is modelled; the others behave alike.
- The AES block function, the ASM self-test and regulators, and the ASM registers' control and interrupt-mask bits beyond mode, start, done and clear.
- The async AES and I2C paths, which repeat the blocking ones.
- `sleep_with` beyond the Doze timer: Hibernate, RTC and KBI wake sources, retention, and the decoding of the wake reason.
- The task watchdog's check loop on `embassy` timers, and the COP's behaviour during sleep; the COP is always set to reset rather than interrupt.
- I2C received byte values, and the register sequence of `stop()`.
- The byte loops of SPI and UART transfers, baud rates and pin setup.
- The loader's start-up text and probe read; the Python tools' command lines and wall-clock timeouts (the line is a finite sequence of bytes), the ROM's boot handshake, and the JTAG path.
- Which frame a transmit status belongs to after a cancellation or a dropped `transmit`, which depends on MACA timing; the range check and offset of channel numbers, power levels, link quality, debug counters, and the `radio-hal`, `dot15d4` and `ieee802154` adapters.
- Packets that libmc1322x frees of its own accord, which would wake no one waiting in `prepare_transmit`.
- libmc1322x and the boot ROM, which are not part of this model beyond the contracts stated above.
- GPIO, PWM, RNG, RTC, ADC, delays, power and reset drivers, board constants, the flash-algorithm crate and the build scripts: register plumbing with no properties across operations.
