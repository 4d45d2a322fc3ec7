/**
 Waiting for the radio. All its futures share one waker slot, which each fills when polled too early and the
 callbacks take. Next to the driver's state this follows which futures wait, and whose tasks are scheduled.
 */
module RadioWait {
  import opened Common
  import opened Radio

  datatype Future = Receiving | Preparing | Transmitting

  /** Whose waker the slot holds, the futures that were pending when last polled, and those scheduled since. */
  datatype Tasks = Tasks(slot: Option<Future>, waiting: set<Future>, scheduled: set<Future>)

  /** A poll of `f` that is pending stores its waker; one that is not may leave the slot as it is. */
  function Polled(t: Tasks, f: Future, pending: bool, clears: bool): Tasks {
    if pending then Tasks(Some(f), t.waiting + {f}, t.scheduled - {f})
    else Tasks(if clears then None else t.slot, t.waiting - {f}, t.scheduled - {f})
  }

  /** What the event does to the tasks, before it changes the driver's state `r`. */
  function TasksStep(t: Tasks, r: Radio, e: Event): Tasks {
    match e
    case PollReceive => Polled(t, Receiving, ReceiveOutcome(r).None?, true)
    case PollPrepareTransmit(_, _, _) => Polled(t, Preparing, r.free == {}, false)
    case PollTransmit => Polled(t, Transmitting, r.txStatus.None? && !r.cancelled, r.txStatus.Some?)
    case DropReceive => Tasks(None, t.waiting - {Receiving}, t.scheduled - {Receiving})
    case DropTransmit => t.(waiting := t.waiting - {Preparing, Transmitting})
    case _ =>
      if Wakes(r, e) && t.slot.Some? then t.(slot := None, scheduled := t.scheduled + {t.slot.value}) else t
  }

  /** The slot the driver shows is the one followed here. */
  lemma SlotIsWaker(t: Tasks, r: Radio, e: Event)
    requires BufferInv(r) && Enabled(r, e) && r.waker == t.slot.Some?
    ensures Step(r, e).waker == TasksStep(t, r, e).slot.Some?
  {
  }

  /** Polling `f` again would not leave it pending. */
  predicate CanFinish(r: Radio, f: Future) {
    match f
    case Receiving => r.cancelled || r.rxPending > 0
    case Preparing => r.free != {}
    case Transmitting => r.cancelled || r.txStatus.Some?
  }

  /** Indeed, a poll then resolves, or queues the frame. */
  lemma CanFinishIff(r: Radio, success: nat)
    requires Inv(r) && !InInterrupt(r)
    ensures CanFinish(r, Receiving) <==> ReceiveOutcome(r).Some?
    ensures CanFinish(r, Transmitting) <==> TransmitOutcome(r, success).Some?
    ensures forall channel, bytes, id :: Enabled(r, PollPrepareTransmit(channel, bytes, id)) ==>
              (CanFinish(r, Preparing)
               <==> Step(r, PollPrepareTransmit(channel, bytes, id)).txQueue != r.txQueue)
  {
  }

  /** The other futures are as they were. */
  predicate OnlyConcerns(t: Tasks, t': Tasks, f: Future) {
    forall g :: g != f ==> (g in t'.waiting <==> g in t.waiting) && (g in t'.scheduled <==> g in t.scheduled)
  }

  /** A poll uses up what scheduled it; it waits after that exactly if it could not finish, with its waker stored. */
  lemma PollIsUsedUp(t: Tasks, r: Radio, e: Event, f: Future)
    requires Inv(r) && Enabled(r, e)
    requires match f
             case Receiving => e == PollReceive
             case Preparing => e.PollPrepareTransmit?
             case Transmitting => e == PollTransmit
    ensures var t' := TasksStep(t, r, e);
            && f !in t'.scheduled && (f in t'.waiting <==> !CanFinish(r, f)) && OnlyConcerns(t, t', f)
            && (f in t'.waiting ==> t'.slot == Some(f))
  {
  }

  /** A dropped future waits no more, and that of `receive` leaves no waker. */
  lemma DropIsForgotten(t: Tasks, r: Radio)
    ensures var t' := TasksStep(t, r, DropReceive);
            Receiving !in t'.waiting && Receiving !in t'.scheduled && t'.slot.None? && OnlyConcerns(t, t', Receiving)
    ensures var t' := TasksStep(t, r, DropTransmit);
            t'.waiting == t.waiting * {Receiving} && t'.scheduled == t.scheduled && t'.slot == t.slot
  {
  }

  /** A future that waits and is not scheduled has its waker stored, and nothing to wake up for yet. */
  predicate NoneForgotten(t: Tasks, r: Radio) {
    && r.waker == t.slot.Some?
    && forall f :: f in t.waiting && f !in t.scheduled ==> t.slot == Some(f) && !CanFinish(r, f)
  }

  /** The driver is used through one handle, which its futures borrow: while one is pending, only it is polled
      or dropped. Callbacks come at any time, and so may a cancellation. */
  predicate Alone(t: Tasks, e: Event) {
    match e
    case PollReceive => t.waiting <= {Receiving}
    case DropReceive => t.waiting <= {Receiving}
    case PollPrepareTransmit(_, _, _) => t.waiting <= {Preparing}
    case PollTransmit => t.waiting <= {Transmitting}
    case DropTransmit => t.waiting <= {Preparing, Transmitting}
    case PrepareReceive(_) => t.waiting == {}
    case Switch(_) => t.waiting == {}
    case SetChannel(_) => t.waiting == {}
    case GetReceived => t.waiting == {}
    case _ => true
  }

  lemma StepForgetsNone(t: Tasks, r: Radio, e: Event)
    requires Inv(r) && Enabled(r, e) && NoneForgotten(t, r) && Alone(t, e)
    ensures NoneForgotten(TasksStep(t, r, e), Step(r, e))
  {
    SlotIsWaker(t, r, e);
  }

  predicate AloneThroughout(t: Tasks, r: Radio, es: seq<Event>)
    requires Inv(r) && PossibleRun(r, es)
    decreases es
  {
    es == [] ||
    (StepKeepsInv(r, es[0]);
     Alone(t, es[0]) && AloneThroughout(TasksStep(t, r, es[0]), Step(r, es[0]), es[1..]))
  }

  function TasksAfter(t: Tasks, r: Radio, es: seq<Event>): Tasks
    requires Inv(r) && PossibleRun(r, es)
    decreases es
  {
    if es == [] then t
    else
      StepKeepsInv(r, es[0]);
      TasksAfter(TasksStep(t, r, es[0]), Step(r, es[0]), es[1..])
  }

  /** In every run through one handle, a future that waits has been scheduled as soon as polling it would get
      anywhere: a received frame, a free packet, a verdict or a cancellation; until then its waker is stored. */
  lemma {:induction false} NoWakeUpIsLost(t: Tasks, r: Radio, es: seq<Event>, f: Future)
    requires Inv(r) && NoneForgotten(t, r) && PossibleRun(r, es) && AloneThroughout(t, r, es)
    ensures var t', r' := TasksAfter(t, r, es), Run(r, es);
            && NoneForgotten(t', r')
            && (f in t'.waiting ==> f in t'.scheduled || (t'.slot == Some(f) && !CanFinish(r', f)))
    decreases es
  {
    if es == [] {
    } else {
      StepKeepsInv(r, es[0]);
      StepForgetsNone(t, r, es[0]);
      NoWakeUpIsLost(TasksStep(t, r, es[0]), Step(r, es[0]), es[1..], f);
    }
  }

  /** So a pending `receive` has been scheduled once a frame is queued. */
  lemma QueuedFrameIsNoticed(pool: set<PacketId>, buffers: map<BufferId, seq<byte>>, es: seq<Event>)
    requires forall b :: b in buffers ==> |buffers[b]| == BUFFER_SIZE
    requires PossibleRun(Initial(pool, buffers), es)
    requires AloneThroughout(Tasks(None, {}, {}), Initial(pool, buffers), es)
    ensures var t, r := TasksAfter(Tasks(None, {}, {}), Initial(pool, buffers), es), Run(Initial(pool, buffers), es);
            Receiving in t.waiting && r.rxQueue != [] ==> Receiving in t.scheduled
  {
    NoWakeUpIsLost(Tasks(None, {}, {}), Initial(pool, buffers), es, Receiving);
    RunKeepsInv(Initial(pool, buffers), es, 0);
  }

  /** But the handle can be made at will, and with two futures pending at once one is forgotten: if `transmit`
      is polled while `receive` waits, the next frame wakes only the former. */
  lemma SecondFutureIsForgotten(r: Radio, psdu: seq<byte>)
    requires Inv(r) && !InInterrupt(r) && !r.cancelled && !CanPop(r) && r.txStatus.None? && r.armed.Some?
    ensures var t1, r1 := TasksStep(Tasks(None, {}, {}), r, PollReceive), Step(r, PollReceive);
            var t2, r2 := TasksStep(t1, r1, PollTransmit), Step(r1, PollTransmit);
            var t3, r3 := TasksStep(t2, r2, RxCallback(psdu)), Step(r2, RxCallback(psdu));
            && Enabled(r, PollReceive) && Enabled(r1, PollTransmit) && Enabled(r2, RxCallback(psdu))
            && Receiving in t3.waiting && Receiving !in t3.scheduled && t3.slot.None? && CanFinish(r3, Receiving)
  {
  }
}
