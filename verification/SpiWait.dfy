/**
 The check-then-arm wait of an SPI transfer. The task arms the ITC channel outside its critical section,
 because leaving the section restores the enables saved on entry; the handler turns the channel off and
 wakes the stored waker. Every interleaving of the task, other code's critical sections, the handler and
 the hardware is a sequence of the events below.
 */
module SpiWait {
  import opened Common
  import opened Interrupts

  /** Where the task is. `Parked` is between a poll that returned pending and the next. */
  datatype Pc = NoTransfer | Arming | Armed | Checking | Stored | Finished | Parked

  datatype Spi = Spi(
    itc: Itc,
    shifting: nat,    // bytes written and not yet shifted out and in
    intFlag: bool,    // SPI_INT: the transfer is complete
    waker: bool,      // the slot holds the task's waker
    runnable: bool,   // the task is in the executor's run queue
    guard: bool,      // a SleepInhibitGuard is held, which keeps the chip from dozing
    pc: Pc)

  datatype Event =
    | Begin(queued: bool) // the task starts a transfer and is polled; a byte still being shifted then is
                          // finished first if `queued`, and given up otherwise
    | Complete    // the hardware finishes a byte
    | Poll        // the executor polls the parked task
    | Arm         // the task writes INTENNUM
    | ReadEnable  // a critical section is entered: INTENABLE is read ...
    | ClearEnable // ... and cleared
    | Check       // the task looks at SPI_INT, and stores its waker if it is clear
    | Leave       // the innermost critical section ends
    | Handler     // spi_isr
    | Wake        // some other code wakes the task
    | Drop        // the parked task's future is dropped

  function Initial(): Spi {
    Spi(Itc(false, [], None), 0, false, false, false, false, NoTransfer)
  }

  /** The task's own critical section is the only thing it runs between `Armed` and the poll's end; code
      of other tasks runs only while this one is not being polled. */
  predicate Enabled(s: Spi, e: Event) {
    match e
    case Begin(_) => s.pc == NoTransfer && Open(s.itc)
    case Complete => s.shifting > 0
    case Poll => s.pc == Parked && Open(s.itc)
    case Arm => s.pc == Arming
    case ReadEnable => s.itc.sampled.None? && s.pc in {NoTransfer, Parked, Armed}
    case ClearEnable => s.itc.sampled.Some?
    case Check => s.pc == Checking
    case Leave => s.itc.saved != [] && s.itc.sampled.None? && s.pc != Checking
    case Handler => s.itc.enabled && s.intFlag
    case Wake => true
    case Drop => s.pc == Parked && Open(s.itc)
  }

  function Step(s: Spi, e: Event): Spi
    requires Enabled(s, e)
  {
    match e
    case Begin(queued) => s.(shifting := if queued then s.shifting + 1 else 1, pc := Arming)
    case Complete => s.(shifting := s.shifting - 1, intFlag := true)
    case Poll => s.(runnable := false, pc := Arming)
    case Arm => s.(itc := s.itc.(enabled := true), pc := Armed)
    case ReadEnable => s.(itc := Sample(s.itc))
    case ClearEnable => s.(itc := Clear(s.itc), pc := if s.pc == Armed then Checking else s.pc)
    case Check =>
      if s.intFlag then s.(intFlag := false, pc := Finished) else s.(waker := true, guard := true, pc := Stored)
    case Leave =>
      var left := s.(itc := Release(s.itc));
      (match s.pc
       case Stored => left.(pc := Parked)
       case Finished => left.(guard := false, pc := NoTransfer)
       case _ => left)
    case Handler =>
      s.(itc := s.itc.(enabled := false), waker := false, runnable := s.runnable || s.waker)
    case Wake => s.(runnable := true)
    case Drop => s.(guard := false, pc := NoTransfer)
  }

  predicate PossibleRun(s: Spi, es: seq<Event>)
    decreases es
  {
    es == [] || (Enabled(s, es[0]) && PossibleRun(Step(s, es[0]), es[1..]))
  }

  function Run(s: Spi, es: seq<Event>): Spi
    requires PossibleRun(s, es)
    decreases es
  {
    if es == [] then s else Run(Step(s, es[0]), es[1..])
  }

  /** A parked task that nothing has scheduled can still be woken. */
  ghost predicate CanBeWoken(s: Spi) {
    s.waker && WillBeEnabled(s.itc)
  }

  /** A transfer under way is still being shifted, or its completion has yet to be noticed. */
  predicate WillComplete(s: Spi) {
    s.pc in {Arming, Armed, Checking, Stored, Parked} ==> s.shifting > 0 || s.intFlag
  }

  ghost predicate Inv(s: Spi) {
    && Consistent(s.itc) && WillComplete(s)
    && (match s.pc
        case NoTransfer => !s.guard
        case Arming => Open(s.itc)
        case Armed => s.itc.saved == [] && (WillBeEnabled(s.itc) || s.intFlag)
        case Checking => |s.itc.saved| == 1 && s.itc.sampled.None? && (s.itc.saved[0] || s.intFlag)
        case Stored => |s.itc.saved| == 1 && s.itc.sampled.None? && CanBeWoken(s) && s.guard
        case Finished => |s.itc.saved| == 1 && s.itc.sampled.None?
        case Parked => s.guard && (!s.runnable ==> CanBeWoken(s)))
  }

  lemma SectionKeepsInv(s: Spi, e: Event)
    requires Inv(s) && Enabled(s, e) && (e.ReadEnable? || e.ClearEnable? || e.Leave?)
    ensures Inv(Step(s, e))
  {
    if e.Leave? {
      ReleaseKeeps(s.itc);
    }
  }

  lemma StepKeepsInv(s: Spi, e: Event)
    requires Inv(s) && Enabled(s, e)
    ensures Inv(Step(s, e))
  {
    if e.ReadEnable? || e.ClearEnable? || e.Leave? {
      SectionKeepsInv(s, e);
    }
  }

  /** In every run, a pending transfer keeps the chip from dozing, as none that is over does, and is yet to
      complete or be noticed to have; and while nothing has scheduled its task, it has its waker stored and its
      interrupt on, or coming back on when the open critical sections end. */
  lemma {:induction false} NoWakeUpIsLost(s: Spi, es: seq<Event>)
    requires Inv(s) && PossibleRun(s, es)
    ensures Inv(Run(s, es))
    ensures Run(s, es).pc == NoTransfer ==> !Run(s, es).guard
    ensures Run(s, es).pc == Parked ==> Run(s, es).guard && (Run(s, es).shifting > 0 || Run(s, es).intFlag)
                                        && (Run(s, es).runnable || CanBeWoken(Run(s, es)))
    decreases es
  {
    if es == [] {
    } else {
      StepKeepsInv(s, es[0]);
      NoWakeUpIsLost(Step(s, es[0]), es[1..]);
    }
  }

  /** So a transfer is delivered: the hardware completes it if it has not; and then, once the open critical
      sections end, the handler can run, and it schedules the task. */
  lemma CompletionIsDelivered(es: seq<Event>)
    requires PossibleRun(Initial(), es)
    ensures var s := Run(Initial(), es);
            s.pc == Parked && !s.runnable ==>
              && (s.intFlag || (Enabled(s, Complete) && Step(s, Complete).intFlag))
              && (s.intFlag && s.itc.sampled.None? ==>
                    var s' := s.(itc := Unwind(s.itc));
                    Enabled(s', Handler) && Step(s', Handler).runnable)
  {
    NoWakeUpIsLost(Initial(), es);
    var s := Run(Initial(), es);
    if s.itc.sampled.None? {
      UnwindEnables(s.itc);
    }
  }

  // ---- Whose completion it is ----

  /** The SPI is at rest: nothing is being shifted, and no completion is waiting to be noticed. */
  predicate AtRest(s: Spi) {
    s.shifting == 0 && !s.intFlag
  }

  /** The transfer under way, if any, is the only one being shifted or complete. */
  predicate OnlyOwn(s: Spi) {
    if s.pc in {NoTransfer, Finished} then AtRest(s) else s.shifting + (if s.intFlag then 1 else 0) == 1
  }

  predicate NoDrop(es: seq<Event>) {
    forall e :: e in es ==> !e.Drop?
  }

  lemma {:induction false} RunKeepsOnlyOwn(s: Spi, es: seq<Event>)
    requires OnlyOwn(s) && PossibleRun(s, es) && NoDrop(es)
    ensures OnlyOwn(Run(s, es))
    decreases es
  {
    if es == [] {
    } else {
      assert es[0] in es;
      RunKeepsOnlyOwn(Step(s, es[0]), es[1..]);
    }
  }

  /** In every run in which no pending transfer is dropped, a transfer resolves only on its own completion. */
  lemma OwnCompletionWithoutDrops(es: seq<Event>)
    requires PossibleRun(Initial(), es) && NoDrop(es)
    ensures Run(Initial(), es).pc == Finished ==> AtRest(Run(Initial(), es))
  {
    RunKeepsOnlyOwn(Initial(), es);
  }

  /** A transfer begun in `s`, if it is not dropped, resolves only once its byte has been shifted. */
  ghost predicate ResolvesOnOwn(s: Spi)
    requires s.pc == NoTransfer && Open(s.itc)
  {
    forall queued, es ::
      PossibleRun(Step(s, Begin(queued)), es) && NoDrop(es) && Run(Step(s, Begin(queued)), es).pc == Finished ==>
        Run(Step(s, Begin(queued)), es).shifting == 0
  }

  /** The steps from a transfer's start, in which its poll finds a completion. */
  function FindCompletion(): seq<Event> {
    [Arm, ReadEnable, ClearEnable, Check]
  }

  lemma FirstStep(s: Spi, e: Event, es: seq<Event>)
    requires Enabled(s, e) && PossibleRun(Step(s, e), es)
    ensures PossibleRun(s, [e] + es) && Run(s, [e] + es) == Run(Step(s, e), es)
  {
    assert ([e] + es)[1..] == es;
  }

  lemma CompletionIsFound(s: Spi)
    requires s.pc == Arming && Open(s.itc) && s.intFlag
    ensures PossibleRun(s, FindCompletion()) && NoDrop(FindCompletion())
    ensures Run(s, FindCompletion()).pc == Finished && Run(s, FindCompletion()).shifting == s.shifting
  {
    var s1 := Step(s, Arm);
    var s2 := Step(s1, ReadEnable);
    var s3 := Step(s2, ClearEnable);
    FirstStep(s3, Check, []);
    FirstStep(s2, ClearEnable, [Check]);
    FirstStep(s1, ReadEnable, [ClearEnable, Check]);
    FirstStep(s, Arm, [ReadEnable, ClearEnable, Check]);
    assert [Arm] + [ReadEnable, ClearEnable, Check] == FindCompletion();
    assert [ReadEnable] + [ClearEnable, Check] == [ReadEnable, ClearEnable, Check];
    assert [ClearEnable] + [Check] == [ClearEnable, Check];
  }

  /** A transfer begun while the SPI is not at rest can find a completion that is not its own. */
  lemma StaleCompletion(s: Spi) returns (es: seq<Event>)
    requires s.pc == NoTransfer && Open(s.itc) && !AtRest(s)
    ensures PossibleRun(Step(s, Begin(true)), es) && NoDrop(es)
    ensures Run(Step(s, Begin(true)), es).pc == Finished && Run(Step(s, Begin(true)), es).shifting > 0
  {
    var begun := Step(s, Begin(true));
    es := FindCompletion();
    if s.intFlag {
      CompletionIsFound(begun);
    } else {
      CompletionIsFound(Step(begun, Complete));
      FirstStep(begun, Complete, es);
      es := [Complete] + es;
    }
  }

  /** It does so exactly if the SPI is at rest when it begins: starting a transfer does not clear `SPI_INT`. */
  lemma ResolvesOnOwnIffAtRest(s: Spi)
    requires s.pc == NoTransfer && Open(s.itc)
    ensures ResolvesOnOwn(s) <==> AtRest(s)
  {
    if AtRest(s) {
      forall queued, es | PossibleRun(Step(s, Begin(queued)), es) && NoDrop(es)
        ensures OnlyOwn(Run(Step(s, Begin(queued)), es))
      {
        RunKeepsOnlyOwn(Step(s, Begin(queued)), es);
      }
    } else {
      var es := StaleCompletion(s);
    }
  }

  /** Dropping a pending transfer never leaves the SPI at rest, so the next one may resolve on its completion. */
  lemma DropLeavesStaleCompletion(s: Spi)
    requires Inv(s) && Enabled(s, Drop)
    ensures !ResolvesOnOwn(Step(s, Drop))
  {
    ResolvesOnOwnIffAtRest(Step(s, Drop));
  }

  /** A poll that has just been entered, up to its look at `SPI_INT`. */
  function PollToCheck(s: Spi): (s': Spi)
    requires s.pc == Arming && Open(s.itc)
    ensures s'.itc == Itc(false, [true], None) && s'.shifting == s.shifting
    ensures s'.pc == if s.intFlag then Finished else Stored
  {
    Step(Step(Step(Step(s, Arm), ReadEnable), ClearEnable), Check)
  }

  /** The whole poll of a parked transfer, with nothing in between. */
  function PollThrough(s: Spi): Spi
    requires Enabled(s, Poll)
  {
    Step(PollToCheck(Step(s, Poll)), Leave)
  }

  /** It is over if `SPI_INT` is set, which the poll clears, and the chip may doze again; otherwise the waker is
      stored and the chip kept from dozing. Either way the interrupt is on afterwards, and nothing else changed. */
  lemma PollSettles(s: Spi)
    requires Enabled(s, Poll)
    ensures PollThrough(s)
            == if s.intFlag then s.(itc := Itc(true, [], None), intFlag := false, runnable := false, guard := false,
                                    pc := NoTransfer)
               else s.(itc := Itc(true, [], None), waker := true, guard := true, runnable := false)
  {
  }

  /** The handler turns its interrupt off, so that it is not entered again for the same completion, which it leaves
      for the task to find; and takes the waker, if there is one, to wake the task. */
  lemma HandlerWakesOnce(s: Spi)
    requires Enabled(s, Handler)
    ensures var s' := Step(s, Handler);
            && !Enabled(s', Handler) && !s'.waker && s'.runnable == (s.runnable || s.waker)
            && s'.intFlag && s'.pc == s.pc && s'.guard == s.guard
  {
  }

  /** So a transfer finishes: once the hardware has completed it and the open critical sections have ended, the
      handler can run, the task it schedules can be polled, and that poll ends the transfer. */
  lemma CompletedTransferFinishes(es: seq<Event>)
    requires PossibleRun(Initial(), es)
    requires var s := Run(Initial(), es); s.pc == Parked && !s.runnable && s.itc.sampled.None?
    ensures var s := Run(Initial(), es);
            && (s.intFlag || Enabled(s, Complete))
            && var done := if s.intFlag then s else Step(s, Complete);
               var open := done.(itc := Unwind(done.itc));
               Enabled(open, Handler) &&
               var woken := Step(open, Handler);
               woken.runnable && Enabled(woken, Poll)
               && PollThrough(woken).pc == NoTransfer && !PollThrough(woken).guard
  {
    NoWakeUpIsLost(Initial(), es);
    var s := Run(Initial(), es);
    UnwindEnables(s.itc);
    var done := if s.intFlag then s else Step(s, Complete);
    PollSettles(Step(done.(itc := Unwind(done.itc)), Handler));
  }

  /** The first transfer after start-up, waited for. */
  function FirstParked(): Spi {
    Step(PollToCheck(Step(Initial(), Begin(false))), Leave)
  }

  /** For one: it is dropped, and its byte is shifted after that; then the next transfer resolves at once, with
      its own byte still to be shifted. */
  lemma StaleCompletionResolves()
    ensures FirstParked().pc == Parked
    ensures var stale := Step(Step(FirstParked(), Drop), Complete);
            var second := PollToCheck(Step(stale, Begin(false)));
            second.pc == Finished && second.shifting == 1
  {
  }

  /** Arming inside the critical section instead would be undone on the way out: the interrupt is off
      and no section will bring it back. */
  lemma ArmingInsideWouldBeUndone(itc: Itc)
    requires Open(itc) && !itc.enabled
    ensures !WillBeEnabled(Release(Clear(Sample(itc)).(enabled := true)))
  {
  }
}
