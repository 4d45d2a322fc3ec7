/**
 The check-then-arm waits of one UART. A reader and a writer may wait at once; each has its own waker and
 its own mask bit, but the two bits share a register that tasks and the handler update by reading and
 writing it back. The events below interleave polls, other code's critical sections, the handler's
 register accesses and the FIFOs.
 */
module UartWait {
  import opened Common
  import opened Interrupts

  /** Where a waiting future is; the three between `Entering` and `Parked` are inside its critical section. */
  datatype Pc = NoWait | Entering | Checking | Stored | Unmasking | Ready | Parked

  /** One direction: its FIFO condition, mask bit, waker slot and task. */
  datatype Lane = Lane(ready: bool, masked: bool, waker: bool, runnable: bool, guard: bool, pc: Pc)

  /** How far the handler is, with the status and the mask bits it has read. */
  datatype Isr =
    | Outside
    | HasStatus(rxReady: bool, txReady: bool)
    | HasMasks(rxReady: bool, txReady: bool, rxMasked: bool, txMasked: bool)
    | Masked(rxReady: bool, txReady: bool)
    | WokeRx(txReady: bool)

  datatype Uart = Uart(itc: Itc, rx: Lane, tx: Lane, isr: Isr, copy: Option<(bool, bool)>)

  datatype Side = Rx | Tx

  datatype Event =
    | Fill(side: Side)      // the FIFO comes to satisfy this side's watermark
    | Use(side: Side)       // task code reads or writes the FIFO so that it no longer does
    | Poll(side: Side)      // a wait starts, or is polled again
    | ReadEnable            // a critical section is entered: INTENABLE is read ...
    | ClearEnable           // ... and cleared
    | Check(side: Side)     // the wait looks at the FIFO level; if it must wait, it stores its waker
    | ReadMasks(side: Side) // it reads UCON ...
    | Unmask(side: Side)    // ... and writes it back with its mask bit clear
    | Leave                 // the innermost critical section ends
    | HandlerStatus         // the handler reads USTAT,
    | HandlerRead           // reads UCON,
    | HandlerMask           // writes it back with the asserted sources masked,
    | HandlerWakeRx         // wakes the reader if it was asserted,
    | HandlerWakeTx         // wakes the writer if it was asserted, and returns
    | Wake(side: Side)      // some other code wakes a task
    | Drop(side: Side)      // a parked future is dropped

  function Get(u: Uart, side: Side): Lane {
    if side.Rx? then u.rx else u.tx
  }

  function Set(u: Uart, side: Side, lane: Lane): Uart {
    if side.Rx? then u.(rx := lane) else u.(tx := lane)
  }

  predicate Between(lane: Lane) {
    lane.pc == NoWait || lane.pc == Parked
  }

  /** The UART after `Uart::new`: both sources masked, its ITC enable on. */
  function Initial(): Uart {
    var lane := Lane(false, true, false, false, false, NoWait);
    Uart(Itc(true, [], None), lane, lane, Outside, None)
  }

  predicate IrqLine(u: Uart) {
    (u.rx.ready && !u.rx.masked) || (u.tx.ready && !u.tx.masked)
  }

  predicate Enabled(u: Uart, e: Event) {
    match e
    case Fill(_) => true
    case Use(_) => u.isr.Outside?
    case Poll(side) => u.isr.Outside? && Open(u.itc) && Between(u.rx) && Between(u.tx)
    case ReadEnable => u.isr.Outside? && u.itc.sampled.None?
                       && ((Between(u.rx) && Between(u.tx)) || u.rx.pc == Entering || u.tx.pc == Entering)
    case ClearEnable => u.isr.Outside? && u.itc.sampled.Some?
    case Check(side) => Get(u, side).pc == Checking
    case ReadMasks(side) => Get(u, side).pc == Stored
    case Unmask(side) => Get(u, side).pc == Unmasking && u.copy.Some?
    case Leave => u.isr.Outside? && u.itc.saved != [] && u.itc.sampled.None?
                  && u.rx.pc in {NoWait, Parked, Ready} && u.tx.pc in {NoWait, Parked, Ready}
    case HandlerStatus => u.isr.Outside? && u.itc.enabled && IrqLine(u)
    case HandlerRead => u.isr.HasStatus?
    case HandlerMask => u.isr.HasMasks?
    case HandlerWakeRx => u.isr.Masked?
    case HandlerWakeTx => u.isr.WokeRx?
    case Wake(_) => true
    case Drop(side) => u.isr.Outside? && Open(u.itc) && Get(u, side).pc == Parked && Between(u.rx) && Between(u.tx)
  }

  function Woken(lane: Lane, asserted: bool): Lane {
    if asserted then lane.(waker := false, runnable := lane.runnable || lane.waker) else lane
  }

  function Step(u: Uart, e: Event): Uart
    requires Enabled(u, e)
  {
    match e
    case Fill(side) => Set(u, side, Get(u, side).(ready := true))
    case Use(side) => Set(u, side, Get(u, side).(ready := false))
    case Poll(side) => Set(u, side, Get(u, side).(runnable := false, pc := Entering))
    case ReadEnable => u.(itc := Sample(u.itc))
    case ClearEnable =>
      u.(itc := Clear(u.itc),
         rx := if u.rx.pc == Entering then u.rx.(pc := Checking) else u.rx,
         tx := if u.tx.pc == Entering then u.tx.(pc := Checking) else u.tx)
    case Check(side) =>
      var lane := Get(u, side);
      Set(u, side, if lane.ready then lane.(pc := Ready) else lane.(waker := true, guard := true, pc := Stored))
    case ReadMasks(side) =>
      Set(u.(copy := Some((u.rx.masked, u.tx.masked))), side, Get(u, side).(pc := Unmasking))
    case Unmask(side) =>
      var (rxMasked, txMasked) := u.copy.value;
      var written := u.(rx := u.rx.(masked := if side.Rx? then false else rxMasked),
                        tx := u.tx.(masked := if side.Tx? then false else txMasked), copy := None);
      Set(written, side, Get(written, side).(pc := Parked))
    case Leave =>
      u.(itc := Release(u.itc),
         rx := if u.rx.pc == Ready then u.rx.(guard := false, pc := NoWait) else u.rx,
         tx := if u.tx.pc == Ready then u.tx.(guard := false, pc := NoWait) else u.tx)
    case HandlerStatus => u.(isr := HasStatus(u.rx.ready, u.tx.ready))
    case HandlerRead => u.(isr := HasMasks(u.isr.rxReady, u.isr.txReady, u.rx.masked, u.tx.masked))
    case HandlerMask =>
      u.(rx := u.rx.(masked := u.isr.rxMasked || u.isr.rxReady),
         tx := u.tx.(masked := u.isr.txMasked || u.isr.txReady),
         isr := Masked(u.isr.rxReady, u.isr.txReady))
    case HandlerWakeRx => u.(rx := Woken(u.rx, u.isr.rxReady), isr := WokeRx(u.isr.txReady))
    case HandlerWakeTx => u.(tx := Woken(u.tx, u.isr.txReady), isr := Outside)
    case Wake(side) => Set(u, side, Get(u, side).(runnable := true))
    case Drop(side) => Set(u, side, Get(u, side).(guard := false, pc := NoWait))
  }

  predicate PossibleRun(u: Uart, es: seq<Event>)
    decreases es
  {
    es == [] || (Enabled(u, es[0]) && PossibleRun(Step(u, es[0]), es[1..]))
  }

  function Run(u: Uart, es: seq<Event>): Uart
    requires PossibleRun(u, es)
    decreases es
  {
    if es == [] then u else Run(Step(u, es[0]), es[1..])
  }

  // ---- The invariant ----

  /** The handler under way has this side's source down as asserted and has yet to wake it. */
  predicate WakeComing(isr: Isr, side: Side) {
    match isr
    case Outside => false
    case HasStatus(rx, tx) => if side.Rx? then rx else tx
    case HasMasks(rx, tx, _, _) => if side.Rx? then rx else tx
    case Masked(rx, tx) => if side.Rx? then rx else tx
    case WokeRx(tx) => side.Tx? && tx
  }

  /** The side's waker is stored, and either its interrupt can come or the handler is on its way to wake it. */
  predicate CanBeWoken(u: Uart, side: Side) {
    Get(u, side).waker && (!Get(u, side).masked || WakeComing(u.isr, side))
  }

  ghost predicate InSection(u: Uart) {
    |u.itc.saved| == 1 && u.itc.saved[0] && u.itc.sampled.None? && u.isr.Outside?
  }

  ghost predicate LaneInv(u: Uart, side: Side) {
    var lane := Get(u, side);
    match lane.pc
    case NoWait => !lane.guard
    case Entering => u.itc.saved == []
    case Checking => InSection(u)
    case Stored => InSection(u) && lane.waker && lane.guard
    case Unmasking => InSection(u) && lane.waker && lane.guard && u.copy == Some((u.rx.masked, u.tx.masked))
    case Ready => InSection(u)
    case Parked => lane.guard && (!lane.runnable ==> CanBeWoken(u, side))
  }

  ghost predicate Inv(u: Uart) {
    && Consistent(u.itc) && WillBeEnabled(u.itc)
    && (Between(u.rx) || Between(u.tx))
    && LaneInv(u, Rx) && LaneInv(u, Tx)
    && (u.isr.HasMasks? ==> u.isr.rxMasked == u.rx.masked && u.isr.txMasked == u.tx.masked)
    && (!u.isr.Outside? ==> u.itc.saved == [])
  }

  lemma FifoKeepsInv(u: Uart, e: Event)
    requires Inv(u) && Enabled(u, e) && (e.Fill? || e.Use?)
    ensures Inv(Step(u, e))
  {
  }

  lemma TaskKeepsInv(u: Uart, e: Event)
    requires Inv(u) && Enabled(u, e) && (e.Wake? || e.Drop? || e.Poll?)
    ensures Inv(Step(u, e))
  {
  }

  lemma SectionKeepsInv(u: Uart, e: Event)
    requires Inv(u) && Enabled(u, e) && (e.ReadEnable? || e.ClearEnable? || e.Leave?)
    ensures Inv(Step(u, e))
  {
  }

  lemma WaitKeepsInv(u: Uart, e: Event)
    requires Inv(u) && Enabled(u, e) && (e.Check? || e.ReadMasks? || e.Unmask?)
    ensures Inv(Step(u, e))
  {
  }

  lemma HandlerKeepsInv(u: Uart, e: Event)
    requires Inv(u) && Enabled(u, e)
    requires e.HandlerStatus? || e.HandlerRead? || e.HandlerMask? || e.HandlerWakeRx? || e.HandlerWakeTx?
    ensures Inv(Step(u, e))
  {
  }

  lemma StepKeepsInv(u: Uart, e: Event)
    requires Inv(u) && Enabled(u, e)
    ensures Inv(Step(u, e))
  {
    if e.Fill? || e.Use? {
      FifoKeepsInv(u, e);
    } else if e.Wake? || e.Drop? || e.Poll? {
      TaskKeepsInv(u, e);
    } else if e.ReadEnable? || e.ClearEnable? || e.Leave? {
      SectionKeepsInv(u, e);
    } else if e.Check? || e.ReadMasks? || e.Unmask? {
      WaitKeepsInv(u, e);
    } else {
      HandlerKeepsInv(u, e);
    }
  }

  /** In every run, a pending wait in either direction keeps the chip from dozing, as none that is over does; and
      while nothing has scheduled its task, it can be woken: its waker is stored and its source unmasked, or
      the handler is about to wake it; and the UART's interrupt is on, or coming back on. */
  lemma {:induction false} NoWakeUpIsLost(u: Uart, es: seq<Event>, side: Side)
    requires Inv(u) && PossibleRun(u, es)
    ensures var u' := Run(u, es);
            && Inv(u') && (Get(u', side).pc == NoWait ==> !Get(u', side).guard)
            && (Get(u', side).pc == Parked ==>
                  Get(u', side).guard && WillBeEnabled(u'.itc)
                  && (Get(u', side).runnable || CanBeWoken(u', side)))
    decreases es
  {
    if es == [] {
    } else {
      StepKeepsInv(u, es[0]);
      NoWakeUpIsLost(Step(u, es[0]), es[1..], side);
    }
  }

  // ---- Passes of the handler ----

  /** What can happen between the handler's entry and its return: its own accesses, FIFOs filling, and wakes. */
  predicate DuringPass(e: Event) {
    e.Fill? || e.Wake? || e.HandlerRead? || e.HandlerMask? || e.HandlerWakeRx?
  }

  /** `es` takes the handler to its return. */
  predicate Returns(es: seq<Event>) {
    es != [] && if |es| == 1 then es[0] == HandlerWakeTx else DuringPass(es[0]) && Returns(es[1..])
  }

  /** `es` takes the handler from `u`, where its interrupt comes, to its return. */
  predicate IsPass(u: Uart, es: seq<Event>) {
    es != [] && es[0] == HandlerStatus && Returns(es[1..]) && PossibleRun(u, es)
  }

  /** The handler's accesses, with nothing in between. */
  const PASS: seq<Event> := [HandlerStatus, HandlerRead, HandlerMask, HandlerWakeRx, HandlerWakeTx]

  lemma PassExists(u: Uart)
    requires Enabled(u, HandlerStatus)
    ensures IsPass(u, PASS)
  {
    var u1 := Step(u, PASS[0]);
    var u2 := Step(u1, PASS[1]);
    var u3 := Step(u2, PASS[2]);
    var u4 := Step(u3, PASS[3]);
    assert PossibleRun(Step(u4, PASS[4]), PASS[5..]);
    assert PossibleRun(u4, PASS[4..]);
    assert PASS[3..][1..] == PASS[4..] && PASS[2..][1..] == PASS[3..] && PASS[1..][1..] == PASS[2..];
    assert Returns(PASS[4..]) && Returns(PASS[3..]) && Returns(PASS[2..]);
    assert PossibleRun(u3, PASS[3..]) && PossibleRun(u2, PASS[2..]) && PossibleRun(u1, PASS[1..]);
  }

  /** The handler's next access, wherever it is, and how many it has left. */
  function NextOfHandler(isr: Isr): (Event, nat)
    requires !isr.Outside?
  {
    match isr
    case HasStatus(_, _) => (HandlerRead, 4)
    case HasMasks(_, _, _, _) => (HandlerMask, 3)
    case Masked(_, _) => (HandlerWakeRx, 2)
    case WokeRx(_) => (HandlerWakeTx, 1)
  }

  /** A pass can always go on, and comes to its end: no other step takes it back. */
  lemma PassIsNotStuck(u: Uart, e: Event)
    requires !u.isr.Outside? && Enabled(u, e)
    ensures var (next, left) := NextOfHandler(u.isr);
            && Enabled(u, next)
            && (if e == next then if left == 1 then Step(u, e).isr.Outside?
                                  else !Step(u, e).isr.Outside? && NextOfHandler(Step(u, e).isr).1 == left - 1
                else Step(u, e).isr == u.isr)
  {
  }

  /** Where the handler is with a source that was asserted or not when it read the status, in state `u`:
      the source was in state `was` then. */
  predicate Progress(was: Lane, lane: Lane, asserted: bool, masked: bool, woken: bool) {
    && lane.masked == (was.masked || (asserted && masked))
    && lane.waker == (was.waker && !(asserted && woken))
    && (was.runnable || (asserted && woken && was.waker) ==> lane.runnable)
    && lane.guard == was.guard && lane.pc == was.pc
  }

  /** How far a pass that began in `u` has got in `v`. */
  predicate InPass(u: Uart, v: Uart) {
    && v.itc == u.itc
    && (match v.isr
        case Outside =>
          Progress(u.rx, v.rx, u.rx.ready, true, true) && Progress(u.tx, v.tx, u.tx.ready, true, true)
        case HasStatus(rx, tx) =>
          && rx == u.rx.ready && tx == u.tx.ready
          && Progress(u.rx, v.rx, rx, false, false) && Progress(u.tx, v.tx, tx, false, false)
        case HasMasks(rx, tx, rxMasked, txMasked) =>
          && rx == u.rx.ready && tx == u.tx.ready && rxMasked == u.rx.masked && txMasked == u.tx.masked
          && Progress(u.rx, v.rx, rx, false, false) && Progress(u.tx, v.tx, tx, false, false)
        case Masked(rx, tx) =>
          && rx == u.rx.ready && tx == u.tx.ready
          && Progress(u.rx, v.rx, rx, true, false) && Progress(u.tx, v.tx, tx, true, false)
        case WokeRx(tx) =>
          && tx == u.tx.ready
          && Progress(u.rx, v.rx, u.rx.ready, true, true) && Progress(u.tx, v.tx, tx, true, false))
  }

  lemma OthersInPass(u: Uart, v: Uart, e: Event)
    requires InPass(u, v) && (e.Fill? || e.Wake?)
    ensures InPass(u, Step(v, e)) && Step(v, e).isr == v.isr
  {
  }

  lemma HandlerInPass(u: Uart, v: Uart, e: Event)
    requires InPass(u, v) && Enabled(v, e)
    requires e.HandlerRead? || e.HandlerMask? || e.HandlerWakeRx? || e.HandlerWakeTx?
    ensures InPass(u, Step(v, e)) && (Step(v, e).isr.Outside? <==> e.HandlerWakeTx?)
  {
  }

  lemma {:induction false} RunInPass(u: Uart, v: Uart, es: seq<Event>)
    requires InPass(u, v) && PossibleRun(v, es) && Returns(es)
    ensures InPass(u, Run(v, es)) && Run(v, es).isr.Outside?
    decreases es
  {
    if es[0].Fill? || es[0].Wake? {
      OthersInPass(u, v, es[0]);
    } else {
      HandlerInPass(u, v, es[0]);
    }
    if |es| > 1 {
      RunInPass(u, Step(v, es[0]), es[1..]);
    }
  }

  /** A pass masks every source that was asserted when it read the status and schedules the task waiting for
      it, whatever fills meanwhile; it changes nothing else, least of all the mask bit of another source. */
  lemma HandlerPassSettles(u: Uart, es: seq<Event>, side: Side)
    requires IsPass(u, es)
    ensures var u' := Run(u, es);
            && u'.isr.Outside? && u'.itc == u.itc
            && Get(u', side).masked == (Get(u, side).masked || Get(u, side).ready)
            && Get(u', side).waker == (Get(u, side).waker && !Get(u, side).ready)
            && (Get(u, side).ready && Get(u, side).waker ==> Get(u', side).runnable)
            && Get(u', side).guard == Get(u, side).guard && Get(u', side).pc == Get(u, side).pc
  {
    RunInPass(u, Step(u, HandlerStatus), es[1..]);
  }

  function Unmasked(u: Uart): nat {
    (if u.rx.masked then 0 else 1) + (if u.tx.masked then 0 else 1)
  }

  /** Every pass leaves fewer sources unmasked, so the handler is entered at most twice before task code runs
      again; and the only one that can be left asserted is one that filled after the status was read. */
  lemma PassMasksMore(u: Uart, es: seq<Event>)
    requires IsPass(u, es)
    ensures var u' := Run(u, es);
            && Unmasked(u') < Unmasked(u)
            && (IrqLine(u') ==> (u'.rx.ready && !u.rx.ready) || (u'.tx.ready && !u.tx.ready))
  {
    HandlerPassSettles(u, es, Rx);
    HandlerPassSettles(u, es, Tx);
  }

  /** An unmasked asserted source interrupts, and every pass then schedules its task. */
  lemma WaitIsServed(u: Uart, es: seq<Event>, side: Side)
    requires u.isr.Outside? && u.itc.enabled && CanBeWoken(u, side) && Get(u, side).ready
    ensures Enabled(u, HandlerStatus)
    ensures IsPass(u, es) ==> Get(Run(u, es), side).runnable
  {
    if IsPass(u, es) {
      HandlerPassSettles(u, es, side);
    }
  }

  /** So readiness is delivered: if a wait is pending and unscheduled when its FIFO condition holds, then
      once the open critical sections end the handler can run, and every pass of it schedules the task. */
  lemma ReadinessIsDelivered(es: seq<Event>, side: Side, pass: seq<Event>)
    requires PossibleRun(Initial(), es)
    ensures var u := Run(Initial(), es);
            Get(u, side).pc == Parked && !Get(u, side).runnable && Get(u, side).ready
            && u.isr.Outside? && u.itc.sampled.None? ==>
              var u' := u.(itc := Unwind(u.itc));
              Enabled(u', HandlerStatus) && (IsPass(u', pass) ==> Get(Run(u', pass), side).runnable)
  {
    NoWakeUpIsLost(Initial(), es, side);
    var u := Run(Initial(), es);
    if Get(u, side).pc == Parked && !Get(u, side).runnable && Get(u, side).ready
       && u.isr.Outside? && u.itc.sampled.None? {
      UnwindEnables(u.itc);
      WaitIsServed(u.(itc := Unwind(u.itc)), pass, side);
    }
  }

  // ---- Polls ----

  /** A poll from its start up to its look at the FIFO, with nothing in between. */
  function PollToCheck(u: Uart, side: Side): Uart
    requires Inv(u) && Enabled(u, Poll(side))
  {
    Step(Step(Step(Step(u, Poll(side)), ReadEnable), ClearEnable), Check(side))
  }

  lemma PollChecks(u: Uart, side: Side)
    requires Inv(u) && Enabled(u, Poll(side))
    ensures var lane := Get(u, side);
            PollToCheck(u, side)
            == Set(u.(itc := Itc(false, [true], None)), side,
                   if lane.ready then lane.(runnable := false, pc := Ready)
                   else lane.(runnable := false, waker := true, guard := true, pc := Stored))
  {
  }

  /** The rest of a poll that must wait: store nothing more, unmask its source, and leave. */
  function PollToWait(u: Uart, side: Side): Uart
    requires Enabled(u, ReadMasks(side)) && u.isr.Outside? && Between(Get(u, if side.Rx? then Tx else Rx))
    requires u.itc.saved != [] && u.itc.sampled.None?
  {
    Step(Step(Step(u, ReadMasks(side)), Unmask(side)), Leave)
  }

  lemma PollUnmasks(u: Uart, side: Side)
    requires Enabled(u, ReadMasks(side)) && u.isr.Outside? && Between(Get(u, if side.Rx? then Tx else Rx))
    requires u.itc.saved != [] && u.itc.sampled.None?
    ensures PollToWait(u, side)
            == Set(u.(itc := Release(u.itc), copy := None), side, Get(u, side).(masked := false, pc := Parked))
  {
  }

  /** The whole poll, with nothing in between. */
  function PollThrough(u: Uart, side: Side): Uart
    requires Inv(u) && Enabled(u, Poll(side))
  {
    PollChecks(u, side);
    var checked := PollToCheck(u, side);
    if Get(checked, side).pc == Ready then Step(checked, Leave) else PollToWait(checked, side)
  }

  /** It is over if the FIFO condition holds, and the chip may doze again as far as this wait is concerned;
      otherwise the waker is stored, this side's source unmasked, and the chip kept from dozing. Everything
      else, the other side's mask bit and the interrupt enable included, is as before. */
  lemma PollSettles(u: Uart, side: Side)
    requires Inv(u) && Enabled(u, Poll(side))
    ensures var lane := Get(u, side);
            PollThrough(u, side)
            == if lane.ready then Set(u, side, lane.(runnable := false, guard := false, pc := NoWait))
               else Set(u.(copy := None), side, lane.(runnable := false, masked := false, waker := true,
                                                      guard := true, pc := Parked))
  {
    PollChecks(u, side);
    if !Get(u, side).ready {
      PollUnmasks(PollToCheck(u, side), side);
    }
  }

  /** What a poll does until it returns, and what else can happen meanwhile: handler passes until interrupts are
      off, FIFOs filling, wakes. */
  predicate DuringPoll(e: Event, side: Side) {
    || e == ReadEnable || e == ClearEnable || e == Check(side) || e == ReadMasks(side) || e == Unmask(side)
    || e == HandlerStatus || e == HandlerWakeTx || DuringPass(e)
  }

  predicate AllDuringPoll(es: seq<Event>, side: Side) {
    es == [] || (DuringPoll(es[0], side) && AllDuringPoll(es[1..], side))
  }

  /** Whether the FIFO condition held when the wait looked, if it has. */
  function SeenReady(u: Uart, es: seq<Event>, side: Side): Option<bool>
    requires PossibleRun(u, es)
    decreases es
  {
    if es == [] then None
    else if es[0] == Check(side) then Some(Get(u, side).ready)
    else SeenReady(Step(u, es[0]), es[1..], side)
  }

  /** How far a poll is that has seen `seen`. */
  predicate PollAt(u: Uart, side: Side, seen: Option<bool>) {
    match Get(u, side).pc
    case NoWait => false
    case Entering => seen.None?
    case Checking => seen.None?
    case Ready => seen == Some(true)
    case _ => seen == Some(false)
  }

  lemma {:induction false} PollTakesItsCourse(u: Uart, es: seq<Event>, side: Side, seen: Option<bool>)
    requires PollAt(u, side, seen) && PossibleRun(u, es) && AllDuringPoll(es, side)
    ensures PollAt(Run(u, es), side, if seen.Some? then seen else SeenReady(u, es, side))
    decreases es
  {
    if es == [] {
    } else {
      var next := if es[0] == Check(side) then Some(Get(u, side).ready) else seen;
      PollTakesItsCourse(Step(u, es[0]), es[1..], side, next);
    }
  }

  /** However a poll is interleaved, when it has left its section it is over if it saw the FIFO condition hold,
      and waiting if it did not. */
  lemma PollEnds(u: Uart, es: seq<Event>, side: Side)
    requires Inv(u) && Enabled(u, Poll(side))
    requires PossibleRun(Step(u, Poll(side)), es) && AllDuringPoll(es, side)
    requires SeenReady(Step(u, Poll(side)), es, side).Some? && Enabled(Run(Step(u, Poll(side)), es), Leave)
    ensures var lane := Get(Step(Run(Step(u, Poll(side)), es), Leave), side);
            if SeenReady(Step(u, Poll(side)), es, side) == Some(true) then lane.pc == NoWait && !lane.guard
            else lane.pc == Parked && lane.guard
  {
    var polled := Step(u, Poll(side));
    StepKeepsInv(u, Poll(side));
    PollTakesItsCourse(polled, es, side, None);
    NoWakeUpIsLost(polled, es, side);
  }

  /** The poll's next access. */
  function NextAccess(u: Uart, side: Side): Event {
    match Get(u, side).pc
    case Entering => if u.itc.sampled.None? then ReadEnable else ClearEnable
    case Checking => Check(side)
    case Stored => ReadMasks(side)
    case Unmasking => Unmask(side)
    case _ => Leave
  }

  /** A poll under way can always go on, unless the handler has come in before interrupts are off. */
  lemma PollIsNotStuck(u: Uart, side: Side)
    requires Inv(u) && u.isr.Outside? && !Between(Get(u, side))
    ensures Enabled(u, NextAccess(u, side))
  {
  }

  lemma {:induction false} PassKeepsReady(u: Uart, es: seq<Event>, side: Side)
    requires PossibleRun(u, es) && Returns(es) && Get(u, side).ready
    ensures Get(Run(u, es), side).ready
    decreases es
  {
    if |es| > 1 {
      PassKeepsReady(Step(u, es[0]), es[1..], side);
    } else {
      assert es[1..] == [];
    }
  }

  /** Whatever sections are open between polls, ending them keeps everything in order. */
  lemma UnwoundInv(u: Uart)
    requires Inv(u) && u.isr.Outside? && u.itc.sampled.None? && Between(u.rx) && Between(u.tx)
    ensures Inv(u.(itc := Unwind(u.itc))) && Open(Unwind(u.itc)) && Unwind(u.itc).enabled
  {
    UnwindEnables(u.itc);
  }

  /** So a wait whose FIFO condition holds finishes: once the open critical sections end, the handler can run, and
      every pass of it schedules the task, which can then be polled, and that poll ends the wait. */
  lemma ReadyWaitFinishes(es: seq<Event>, side: Side, pass: seq<Event>)
    requires PossibleRun(Initial(), es)
    requires var u := Run(Initial(), es);
             && Get(u, side).pc == Parked && !Get(u, side).runnable && Get(u, side).ready
             && u.isr.Outside? && u.itc.sampled.None? && Between(u.rx) && Between(u.tx)
             && IsPass(u.(itc := Unwind(u.itc)), pass)
    ensures var u := Run(Run(Initial(), es).(itc := Unwind(Run(Initial(), es).itc)), pass);
            && Inv(u) && Get(u, side).runnable && Enabled(u, Poll(side))
            && Get(PollThrough(u, side), side).pc == NoWait && !Get(PollThrough(u, side), side).guard
  {
    NoWakeUpIsLost(Initial(), es, side);
    ReadinessIsDelivered(es, side, pass);
    var u := Run(Initial(), es);
    UnwoundInv(u);
    var u' := u.(itc := Unwind(u.itc));
    NoWakeUpIsLost(u', pass, side);
    HandlerPassSettles(u', pass, Rx);
    HandlerPassSettles(u', pass, Tx);
    PassKeepsReady(Step(u', HandlerStatus), pass[1..], side);
    PollSettles(Run(u', pass), side);
  }

  /** For one: when the FIFO of a parked wait fills, the handler and then the task run, and the wait is over. */
  lemma FilledWaitFinishes(u: Uart, side: Side)
    requires Inv(u) && u.isr.Outside? && Open(u.itc) && Between(u.rx) && Between(u.tx)
    requires Get(u, side).pc == Parked && !Get(u, side).runnable
    ensures var filled := Step(u, Fill(side));
            && IsPass(filled, PASS) && Inv(Run(filled, PASS)) && Enabled(Run(filled, PASS), Poll(side))
            && Get(Run(filled, PASS), side).runnable
            && Get(PollThrough(Run(filled, PASS), side), side).pc == NoWait
  {
    var filled := Step(u, Fill(side));
    StepKeepsInv(u, Fill(side));
    NoWakeUpIsLost(filled, [], side);
    WaitIsServed(filled, PASS, side);
    PassExists(filled);
    HandlerPassSettles(filled, PASS, Rx);
    HandlerPassSettles(filled, PASS, Tx);
    NoWakeUpIsLost(filled, PASS, side);
    PassKeepsReady(Step(filled, HandlerStatus), PASS[1..], side);
    PollSettles(Run(filled, PASS), side);
  }
}
