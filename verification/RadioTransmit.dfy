/**
 Which frame a transmit status belongs to. Frames leave in the order they were queued, whatever happens; and
 if every `transmit` is polled to its end, and none is cancelled, their statuses are reported in that order.
 */
module RadioTransmit {
  import opened Common
  import opened Radio

  // ---- What one event does ----

  /** The PSDU it queues. */
  function QueuedBy(r: Radio, e: Event): seq<seq<byte>> {
    if e.PollPrepareTransmit? && r.free != {} && e.bytes != [] then [e.bytes[1..1 + PsduLength(e.bytes)]] else []
  }

  /** The PSDU the MACA is done with. */
  function SentBy(r: Radio, e: Event): seq<seq<byte>> {
    if e.TxCallback? && r.txQueue != [] then [r.txQueue[0].psdu] else []
  }

  /** The status the MACA gives it. */
  function VerdictBy(r: Radio, e: Event): seq<nat> {
    if e.TxCallback? then [e.status] else []
  }

  /** The status `transmit` reports. */
  function ReportedBy(r: Radio, e: Event): seq<nat> {
    if e.PollTransmit? && r.txStatus.Some? then [r.txStatus.value] else []
  }

  /** All of it, over a run. */
  function Collect<T>(r: Radio, es: seq<Event>, f: (Radio, Event) -> seq<T>): seq<T>
    requires Inv(r) && PossibleRun(r, es)
    decreases es
  {
    if es == [] then []
    else
      StepKeepsInv(r, es[0]);
      f(r, es[0]) + Collect(Step(r, es[0]), es[1..], f)
  }

  // ---- Frames ----

  lemma StepKeepsFrames(r: Radio, e: Event)
    requires Inv(r) && Enabled(r, e)
    ensures Psdus(r.txQueue) + QueuedBy(r, e) == SentBy(r, e) + Psdus(Step(r, e).txQueue)
  {
    if e.TxCallback? {
      assert Psdus(r.txQueue) == [r.txQueue[0].psdu] + Psdus(r.txQueue[1..]);
    } else if e.PollPrepareTransmit? && r.free != {} {
      var p := Packet(e.id, e.bytes[1..1 + PsduLength(e.bytes)]);
      assert Psdus(r.txQueue + [p]) == Psdus(r.txQueue) + [p.psdu];
    }
  }

  /** Over every run, the frames sent and those still queued are the ones queued, in their order. */
  lemma {:induction false} FramesInOrder(r: Radio, es: seq<Event>)
    requires Inv(r) && PossibleRun(r, es)
    ensures Psdus(r.txQueue) + Collect(r, es, QueuedBy) == Collect(r, es, SentBy) + Psdus(Run(r, es).txQueue)
    decreases es
  {
    if es == [] {
    } else {
      var r' := Step(r, es[0]);
      StepKeepsInv(r, es[0]);
      StepKeepsFrames(r, es[0]);
      FramesInOrder(r', es[1..]);
      Carry(Psdus(r.txQueue), QueuedBy(r, es[0]), Collect(r', es[1..], QueuedBy),
            SentBy(r, es[0]), Psdus(r'.txQueue), Collect(r', es[1..], SentBy), Psdus(Run(r, es).txQueue));
    }
  }

  /** One step's queue law and that of the rest of the run make that of the whole. */
  lemma Carry<T>(before: seq<T>, into: seq<T>, intoRest: seq<T>, out: seq<T>, mid: seq<T>, outRest: seq<T>,
                 after: seq<T>)
    requires before + into == out + mid && mid + intoRest == outRest + after
    ensures before + (into + intoRest) == (out + outRest) + after
  {
    Regroup(before, into, intoRest);
    Regroup(out, mid, intoRest);
    Regroup(out, outRest, after);
  }

  // ---- Statuses ----

  /** No cancellation, and no frame queued while `transmit` for the one before, if `awaiting` it, has yet to
      report. */
  predicate PolledToEnd(r: Radio, es: seq<Event>, awaiting: bool)
    requires Inv(r) && PossibleRun(r, es)
    decreases es
  {
    es == [] ||
    (StepKeepsInv(r, es[0]);
     && !es[0].Cancel?
     && (es[0].PollPrepareTransmit? ==> !awaiting)
     && PolledToEnd(Step(r, es[0]), es[1..], StillAwaiting(r, es[0], awaiting)))
  }

  predicate StillAwaiting(r: Radio, e: Event, awaiting: bool) {
    match e
    case PollPrepareTransmit(_, _, _) => r.free != {}
    case PollTransmit => awaiting && r.txStatus.None?
    case _ => awaiting
  }

  /** The frame awaited is queued, or its status is recorded. */
  predicate AtMostOneOut(r: Radio, awaiting: bool) {
    && !r.cancelled
    && |r.txQueue| + (if r.txStatus.Some? then 1 else 0) == if awaiting then 1 else 0
  }

  function StatusLeft(r: Radio): seq<nat> {
    if r.txStatus.Some? then [r.txStatus.value] else []
  }

  lemma StepKeepsStatuses(r: Radio, e: Event, awaiting: bool)
    requires Inv(r) && Enabled(r, e) && AtMostOneOut(r, awaiting)
    requires !e.Cancel? && (e.PollPrepareTransmit? ==> !awaiting)
    ensures AtMostOneOut(Step(r, e), StillAwaiting(r, e, awaiting))
    ensures StatusLeft(r) + VerdictBy(r, e) == ReportedBy(r, e) + StatusLeft(Step(r, e))
  {
  }

  lemma {:induction false} StatusesInOrder(r: Radio, es: seq<Event>, awaiting: bool)
    requires Inv(r) && PossibleRun(r, es) && AtMostOneOut(r, awaiting) && PolledToEnd(r, es, awaiting)
    ensures StatusLeft(r) + Collect(r, es, VerdictBy) == Collect(r, es, ReportedBy) + StatusLeft(Run(r, es))
    decreases es
  {
    if es == [] {
    } else {
      var r' := Step(r, es[0]);
      StepKeepsInv(r, es[0]);
      StepKeepsStatuses(r, es[0], awaiting);
      StatusesInOrder(r', es[1..], StillAwaiting(r, es[0], awaiting));
      Carry(StatusLeft(r), VerdictBy(r, es[0]), Collect(r', es[1..], VerdictBy),
            ReportedBy(r, es[0]), StatusLeft(r'), Collect(r', es[1..], ReportedBy), StatusLeft(Run(r, es)));
    }
  }

  /** Every frame sent has its status. */
  lemma {:induction false} VerdictForEach(r: Radio, es: seq<Event>)
    requires Inv(r) && PossibleRun(r, es)
    ensures |Collect(r, es, SentBy)| == |Collect(r, es, VerdictBy)|
    decreases es
  {
    if es == [] {
    } else {
      StepKeepsInv(r, es[0]);
      VerdictForEach(Step(r, es[0]), es[1..]);
    }
  }

  lemma SameFront<T>(none: seq<T>, all: seq<T>, front: seq<T>, back: seq<T>, k: nat)
    requires none == [] && none + all == front + back
    ensures |front| <= |all| && (k < |front| ==> all[k] == front[k])
  {
    assert none + all == all;
  }

  /** The k-th status reported is the one the MACA gave the k-th frame it sent, which is the k-th queued. */
  lemma VerdictsBelong(r: Radio, es: seq<Event>, k: nat)
    requires Inv(r) && PossibleRun(r, es) && AtMostOneOut(r, false) && PolledToEnd(r, es, false)
    requires k < |Collect(r, es, ReportedBy)|
    ensures k < |Collect(r, es, VerdictBy)| == |Collect(r, es, SentBy)| <= |Collect(r, es, QueuedBy)|
    ensures Collect(r, es, ReportedBy)[k] == Collect(r, es, VerdictBy)[k]
    ensures Collect(r, es, SentBy)[k] == Collect(r, es, QueuedBy)[k]
  {
    FramesInOrder(r, es);
    StatusesInOrder(r, es, false);
    VerdictForEach(r, es);
    SameFront(Psdus(r.txQueue), Collect(r, es, QueuedBy), Collect(r, es, SentBy), Psdus(Run(r, es).txQueue), k);
    SameFront(StatusLeft(r), Collect(r, es, VerdictBy), Collect(r, es, ReportedBy), StatusLeft(Run(r, es)), k);
  }

  /** Without that discipline a status can go to the wrong frame: queueing a frame leaves `transmit` pending
      exactly if no status is left over from one before, as there is if its `transmit` was dropped. */
  lemma NewTransmitIsPendingIff(r: Radio, channel: nat, bytes: seq<byte>, id: PacketId, success: nat)
    requires Inv(r) && r.free != {} && Enabled(r, PollPrepareTransmit(channel, bytes, id))
    ensures TransmitOutcome(Step(r, PollPrepareTransmit(channel, bytes, id)), success).None? <==> r.txStatus.None?
  {
  }
}
