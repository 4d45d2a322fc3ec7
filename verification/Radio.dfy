/**
 The radio driver's shared state, the C library's packet queues behind it, and the buffers lent to it.
 Futures being polled, dropped and cancelled, and the callbacks from the MACA interrupt, are the events;
 each runs in one critical section. The C library is taken to move packets between its pool and its
 queues, in order, and nothing else.
 */
module Radio {
  import opened Common

  type PacketId = nat
  type BufferId = nat

  /** Largest PHR; a PSDU without FCS is two bytes shorter. */
  const MAX_PHR: nat := 127
  const BUFFER_SIZE: nat := 128

  /** A packet of the pool, and the PSDU in it. */
  datatype Packet = Packet(id: PacketId, psdu: seq<byte>)

  datatype Radio = Radio(
    // The C library: free packets, the one the MACA receives into, the one being handed over by the
    // interrupt, and the queues.
    free: set<PacketId>,
    armed: Option<PacketId>,
    incoming: Option<Packet>,
    rxQueue: seq<Packet>,
    txQueue: seq<Packet>,
    /** The channel the MACA is on. */
    channel: nat,
    // The driver's cells.
    rxBuffer: Option<BufferId>,
    rxPending: nat,
    txStatus: Option<nat>,
    txChannel: Option<nat>,
    cancelled: bool,
    waker: bool,
    // The caller's buffers, and the one it has promised to keep valid.
    buffers: map<BufferId, seq<byte>>,
    lent: Option<BufferId>,
    // All PSDUs received so far, and those taken off the queue since.
    arrived: seq<seq<byte>>,
    taken: seq<seq<byte>>)

  datatype Event =
    | Arm(id: PacketId)                       // the MACA takes a free packet to receive into
    | RxCallback(psdu: seq<byte>)             // a frame is in: maca_rx_callback counts it ...
    | RxPush                                  // ... and the library then queues it
    | TxCallback(status: nat)                 // the frame at the head has been sent, or has not
    | PrepareReceive(buffer: BufferId)
    | PollReceive
    | DropReceive
    | PollPrepareTransmit(channel: nat, bytes: seq<byte>, id: PacketId) // `id`: the packet the pool gives, if any
    | PollTransmit
    | DropTransmit                            // the future of either is dropped
    | Cancel
    | Switch(channel: nat)                    // enable or disable, which leaves the MACA on some channel
    | SetChannel(channel: nat)
    | GetReceived                             // radio-hal's non-blocking receive

  predicate InInterrupt(r: Radio) {
    r.incoming.Some?
  }

  predicate Enabled(r: Radio, e: Event) {
    match e
    case Arm(id) => r.armed.None? && id in r.free
    case RxCallback(_) => r.armed.Some? && !InInterrupt(r)
    case RxPush => InInterrupt(r)
    case TxCallback(_) => r.txQueue != [] && !InInterrupt(r)
    case PrepareReceive(buffer) => !InInterrupt(r) && buffer in r.buffers
    case PollPrepareTransmit(_, bytes, id) => !InInterrupt(r) && (r.free != {} ==> bytes != [] && id in r.free)
    case _ => !InInterrupt(r)
  }

  // ---- Operations ----

  /** `pop_receive_packet`: the packet, if the counter and the queue both say there is one. */
  predicate CanPop(r: Radio) {
    r.rxPending > 0 && r.rxQueue != []
  }

  function Pop(r: Radio): Radio
    requires CanPop(r)
  {
    r.(rxQueue := r.rxQueue[1..], rxPending := r.rxPending - 1, taken := r.taken + [r.rxQueue[0].psdu])
  }

  function Free(r: Radio, id: PacketId): Radio {
    r.(free := r.free + {id})
  }

  /** What `receive` leaves in a buffer: PHR, PSDU (clamped), and whatever was behind them. */
  function Delivered(buffer: seq<byte>, psdu: seq<byte>): seq<byte>
    requires |buffer| == BUFFER_SIZE
  {
    var len := Min(Min(|psdu|, MAX_PHR - 2), BUFFER_SIZE - 1);
    [len + 2] + psdu[..len] + buffer[1 + len..]
  }

  /** How many bytes after the PHR are sent. */
  function PsduLength(bytes: seq<byte>): nat {
    var phr: int := if bytes == [] then 0 else bytes[0];
    Min(Min(SaturatingSub(phr, 2), MAX_PHR - 2), SaturatingSub(|bytes|, 1))
  }

  /** Taking the bytes to send from the caller's slice stays inside it exactly when that is not empty: an
      empty slice is meant to be an empty frame, but its slicing panics. */
  lemma TransmitSliceInRangeIffNotEmpty(bytes: seq<byte>)
    ensures 1 <= 1 + PsduLength(bytes) <= |bytes| <==> bytes != []
  {
  }

  /** The PSDU sent is what the PHR says, less the two bytes of the FCS the MACA adds; and no more than a
      frame can hold or the slice does. */
  lemma PsduByPhr(bytes: seq<byte>)
    requires bytes != []
    ensures var psdu := bytes[1..1 + PsduLength(bytes)];
            && (2 <= bytes[0] <= 127 && bytes[0] - 1 <= |bytes| ==> psdu == bytes[1..bytes[0] - 1])
            && (bytes[0] < 2 ==> psdu == [])
            && (bytes[0] > 127 && |bytes| >= 126 ==> psdu == bytes[1..126])
            && (bytes[0] - 1 > |bytes| && |bytes| <= 126 ==> psdu == bytes[1..])
  {
  }

  /** A delivery leaves the length, FCS included, the PSDU behind it, and the rest of the buffer as it was. */
  lemma DeliveryIsLaidOut(buffer: seq<byte>, psdu: seq<byte>)
    requires |buffer| == 128
    ensures var now, len := Delivered(buffer, psdu), if |psdu| <= 125 then |psdu| else 125;
            |now| == 128 && now[0] == len + 2 && now[1..1 + len] == psdu[..len] && now[1 + len..] == buffer[1 + len..]
  {
  }

  /** A frame received can be sent on from the same buffer: its PSDU is what is then queued. */
  lemma DeliveredIsSendable(buffer: seq<byte>, psdu: seq<byte>)
    requires |buffer| == 128 && |psdu| <= 125
    ensures var now := Delivered(buffer, psdu); now[1..1 + PsduLength(now)] == psdu
  {
    PsduByPhr(Delivered(buffer, psdu));
    DeliveryIsLaidOut(buffer, psdu);
  }

  /** The outcome of polling `receive`: pending, or done with whether a frame was delivered. */
  function ReceiveOutcome(r: Radio): Option<bool> {
    if r.cancelled then Some(false)
    else if !CanPop(r) then None
    else Some(r.rxBuffer.Some?)
  }

  function PollReceiveStep(r: Radio): Radio
    requires r.rxBuffer.Some? ==> r.rxBuffer.value in r.buffers && |r.buffers[r.rxBuffer.value]| == BUFFER_SIZE
  {
    if r.cancelled then r.(cancelled := false, waker := false, rxBuffer := None, lent := None)
    else if !CanPop(r) then r.(waker := true)
    else
      var packet := r.rxQueue[0];
      var popped := Free(Pop(r), packet.id).(waker := false, lent := None);
      match r.rxBuffer
      case None => popped
      case Some(b) => popped.(rxBuffer := None, buffers := r.buffers[b := Delivered(r.buffers[b], packet.psdu)])
  }

  /** `set_channel_index`: the register is written only if the cache does not say it holds `channel`. */
  function OnChannel(r: Radio, channel: nat): Radio {
    if r.txChannel == Some(channel) then r else r.(channel := channel, txChannel := Some(channel))
  }

  function PollPrepareTransmitStep(r: Radio, channel: nat, bytes: seq<byte>, id: PacketId): Radio
    requires bytes != [] || r.free == {}
  {
    if r.free == {} then r.(cancelled := false, waker := true)
    else
      OnChannel(r, channel).(free := r.free - {id}, cancelled := false,
         txQueue := r.txQueue + [Packet(id, bytes[1..1 + PsduLength(bytes)])])
  }

  function PollTransmitStep(r: Radio): Radio {
    if r.txStatus.Some? then r.(txStatus := None, waker := false)
    else if r.cancelled then r.(cancelled := false)
    else r.(waker := true)
  }

  /** The driver only ever holds a buffer its caller has promised to keep. */
  predicate BufferInv(r: Radio) {
    && (r.rxBuffer.Some? ==> r.lent == r.rxBuffer && r.rxBuffer.value in r.buffers)
    && (forall b :: b in r.buffers ==> |r.buffers[b]| == BUFFER_SIZE)
  }

  function Step(r: Radio, e: Event): Radio
    requires BufferInv(r) && Enabled(r, e)
  {
    match e
    case Arm(id) => r.(free := r.free - {id}, armed := Some(id))
    case RxCallback(psdu) =>
      r.(armed := None, incoming := Some(Packet(r.armed.value, psdu)), rxPending := r.rxPending + 1, waker := false,
         arrived := r.arrived + [psdu])
    case RxPush => r.(incoming := None, rxQueue := r.rxQueue + [r.incoming.value])
    case TxCallback(status) =>
      Free(r, r.txQueue[0].id).(txQueue := r.txQueue[1..], txStatus := Some(status), waker := false)
    case PrepareReceive(buffer) => r.(rxBuffer := Some(buffer), lent := Some(buffer), cancelled := false)
    case PollReceive => PollReceiveStep(r)
    case DropReceive => r.(rxBuffer := None, lent := None, waker := false, cancelled := false)
    case PollPrepareTransmit(channel, bytes, id) => PollPrepareTransmitStep(r, channel, bytes, id)
    case PollTransmit => PollTransmitStep(r)
    case DropTransmit => r
    case Cancel => r.(cancelled := true, txStatus := None, waker := false)
    case Switch(channel) =>
      r.(channel := channel, txChannel := None, cancelled := false, rxBuffer := None, lent := None)
    case SetChannel(channel) => OnChannel(r, channel)
    case GetReceived => if CanPop(r) then Free(Pop(r), r.rxQueue[0].id) else r
  }

  /** Whether `e` wakes the task whose waker it takes; the other events that empty the slot drop what is in it. */
  predicate Wakes(r: Radio, e: Event) {
    (e.RxCallback? || e.TxCallback? || e.Cancel?) && r.waker
  }

  // ---- Invariant ----

  function InQueue(q: seq<Packet>, id: PacketId): nat {
    if q == [] then 0 else (if q[0].id == id then 1 else 0) + InQueue(q[1..], id)
  }

  /** How many places own packet `id`. */
  function Owners(r: Radio, id: PacketId): nat {
    (if id in r.free then 1 else 0) + (if r.armed == Some(id) then 1 else 0)
    + (if r.incoming.Some? && r.incoming.value.id == id then 1 else 0)
    + InQueue(r.rxQueue, id) + InQueue(r.txQueue, id)
  }

  function Psdus(q: seq<Packet>): seq<seq<byte>> {
    seq(|q|, i requires 0 <= i < |q| => q[i].psdu)
  }

  /** Each packet has at most one owner. */
  ghost predicate PacketInv(r: Radio) {
    forall id :: Owners(r, id) <= 1
  }

  /** The counter is the queue's length, one ahead of it during the callback; and frames are taken in the
      order they arrived. */
  predicate OrderInv(r: Radio) {
    && r.rxPending == |r.rxQueue| + (if r.incoming.Some? then 1 else 0)
    && r.arrived == r.taken + Psdus(r.rxQueue) + (if r.incoming.Some? then [r.incoming.value.psdu] else [])
  }

  /** The cached channel is the one the MACA is on. */
  predicate ChannelInv(r: Radio) {
    r.txChannel.Some? ==> r.channel == r.txChannel.value
  }

  ghost predicate Inv(r: Radio) {
    PacketInv(r) && OrderInv(r) && BufferInv(r) && ChannelInv(r)
  }

  // ---- Every run ----

  lemma {:induction false} PushedInQueue(q: seq<Packet>, p: Packet, id: PacketId)
    ensures InQueue(q + [p], id) == InQueue(q, id) + if p.id == id then 1 else 0
  {
    if q == [] {
      assert q + [p] == [p] && [p][1..] == [];
    } else {
      PushedInQueue(q[1..], p, id);
      assert (q + [p])[1..] == q[1..] + [p];
    }
  }

  lemma ReceiveConserves(r: Radio, id: PacketId)
    requires PacketInv(r) && BufferInv(r) && Enabled(r, PollReceive)
    ensures Owners(Step(r, PollReceive), id) == Owners(r, id)
  {
  }

  lemma TransmitConserves(r: Radio, e: Event, id: PacketId)
    requires PacketInv(r) && BufferInv(r) && Enabled(r, e) && e.PollPrepareTransmit?
    ensures Owners(Step(r, e), id) == Owners(r, id)
  {
    assert Owners(r, id) <= 1;
    if r.free != {} {
      PushedInQueue(r.txQueue, Packet(e.id, e.bytes[1..1 + PsduLength(e.bytes)]), id);
    }
  }

  /** Packets are conserved: each event moves them between owners, and none is lost, duplicated or freed
      twice. */
  lemma StepConserves(r: Radio, e: Event, id: PacketId)
    requires PacketInv(r) && BufferInv(r) && Enabled(r, e)
    ensures Owners(Step(r, e), id) == Owners(r, id)
  {
    assert Owners(r, id) <= 1;
    if e.PollReceive? {
      ReceiveConserves(r, id);
    } else if e.PollPrepareTransmit? {
      TransmitConserves(r, e, id);
    } else if e.RxPush? {
      PushedInQueue(r.rxQueue, r.incoming.value, id);
    }
  }

  lemma PushKeepsOrder(r: Radio)
    requires OrderInv(r) && BufferInv(r) && Enabled(r, RxPush)
    ensures OrderInv(Step(r, RxPush))
  {
  }

  lemma PopKeepsOrder(r: Radio)
    requires OrderInv(r) && CanPop(r) && !InInterrupt(r)
    ensures OrderInv(Pop(r))
  {
  }

  lemma StepKeepsOrder(r: Radio, e: Event)
    requires OrderInv(r) && BufferInv(r) && Enabled(r, e)
    ensures OrderInv(Step(r, e))
  {
    if e.RxPush? {
      PushKeepsOrder(r);
    } else if (e.PollReceive? || e.GetReceived?) && CanPop(r) {
      PopKeepsOrder(r);
    }
  }

  lemma StepKeepsBuffer(r: Radio, e: Event)
    requires BufferInv(r) && Enabled(r, e)
    ensures BufferInv(Step(r, e))
  {
  }

  lemma StepKeepsChannel(r: Radio, e: Event)
    requires BufferInv(r) && ChannelInv(r) && Enabled(r, e)
    ensures ChannelInv(Step(r, e))
  {
  }

  lemma StepKeepsInv(r: Radio, e: Event)
    requires Inv(r) && Enabled(r, e)
    ensures Inv(Step(r, e))
  {
    forall id
      ensures Owners(Step(r, e), id) <= 1
    {
      StepConserves(r, e, id);
      assert Owners(r, id) <= 1;
    }
    StepKeepsOrder(r, e);
    StepKeepsBuffer(r, e);
    StepKeepsChannel(r, e);
  }

  predicate PossibleRun(r: Radio, es: seq<Event>)
    requires Inv(r)
    decreases es
  {
    es == [] || (Enabled(r, es[0]) && (StepKeepsInv(r, es[0]); PossibleRun(Step(r, es[0]), es[1..])))
  }

  function Run(r: Radio, es: seq<Event>): Radio
    requires Inv(r) && PossibleRun(r, es)
    decreases es
  {
    if es == [] then r else (StepKeepsInv(r, es[0]); Run(Step(r, es[0]), es[1..]))
  }

  /** Over every run: the packets of the pool are where they are exactly once each; the counter is the
      queue's length whenever no callback is running; frames have been taken in order of arrival; the only
      buffer the driver may write is the one its caller still keeps valid; and the channel cached is the
      MACA's. */
  lemma {:induction false} RunKeepsInv(r: Radio, es: seq<Event>, id: PacketId)
    requires Inv(r) && PossibleRun(r, es)
    ensures var r' := Run(r, es);
            && Inv(r') && Owners(r', id) == Owners(r, id)
            && (!InInterrupt(r') ==> r'.rxPending == |r'.rxQueue| && r'.arrived == r'.taken + Psdus(r'.rxQueue))
            && (r'.rxBuffer.Some? ==> r'.lent == r'.rxBuffer)
            && (r'.txChannel.Some? ==> r'.channel == r'.txChannel.value)
    decreases es
  {
    if es == [] {
    } else {
      StepKeepsInv(r, es[0]);
      StepConserves(r, es[0], id);
      RunKeepsInv(Step(r, es[0]), es[1..], id);
    }
  }

  /** After start-up, with the pool's packets all free. */
  function Initial(pool: set<PacketId>, buffers: map<BufferId, seq<byte>>): (r: Radio)
    requires forall b :: b in buffers ==> |buffers[b]| == BUFFER_SIZE
    ensures Inv(r)
  {
    Radio(pool, None, None, [], [], 0, None, 0, None, None, false, false, buffers, None, [], [])
  }

  /** So in every run from start-up each packet of the pool has exactly one owner, and no other packet has. */
  lemma EveryPacketHasOneOwner(pool: set<PacketId>, buffers: map<BufferId, seq<byte>>, es: seq<Event>, id: PacketId)
    requires forall b :: b in buffers ==> |buffers[b]| == BUFFER_SIZE
    requires PossibleRun(Initial(pool, buffers), es)
    ensures Owners(Run(Initial(pool, buffers), es), id) == if id in pool then 1 else 0
  {
    RunKeepsInv(Initial(pool, buffers), es, id);
  }

  /** A `receive` that reports a frame has put the oldest one not yet taken, PHR first, into the buffer
      prepared for it and into no other; one that resolves otherwise has written nothing. Either way the
      driver keeps no buffer. */
  lemma ReceiveDelivers(r: Radio)
    requires Inv(r) && !InInterrupt(r)
    ensures var r' := Step(r, PollReceive);
            match ReceiveOutcome(r)
            case Some(true) =>
              && r.lent.Some? && |r.taken| < |r.arrived| && r'.taken == r.taken + [r.arrived[|r.taken|]]
              && r'.buffers == r.buffers[r.lent.value := Delivered(r.buffers[r.lent.value], r.arrived[|r.taken|])]
              && r'.rxBuffer.None? && r'.lent.None?
            case Some(false) => r'.buffers == r.buffers && r'.rxBuffer.None? && r'.lent.None?
            case None => r'.buffers == r.buffers && r'.rxBuffer == r.rxBuffer && r'.waker && r'.taken == r.taken
  {
  }

  /** `prepare_transmit` queues the caller's PSDU, as long as the PHR says, at the end and on the channel asked
      for, exactly when the pool has a packet; and forgets an old cancellation. */
  lemma TransmitIsQueued(r: Radio, channel: nat, bytes: seq<byte>, id: PacketId)
    requires Inv(r) && Enabled(r, PollPrepareTransmit(channel, bytes, id))
    ensures !Step(r, PollPrepareTransmit(channel, bytes, id)).cancelled
    ensures var r' := Step(r, PollPrepareTransmit(channel, bytes, id));
            if r.free == {} then r'.txQueue == r.txQueue && r'.waker
            else
              var n := |r.txQueue|;
              && |r'.txQueue| == n + 1 && r'.txQueue[..n] == r.txQueue && r'.channel == channel
              && (2 <= bytes[0] <= 127 && bytes[0] - 1 <= |bytes| ==>
                    r'.txQueue[n].psdu == bytes[1..bytes[0] - 1])
              && (bytes[0] < 2 ==> r'.txQueue[n].psdu == [])
              && (bytes[0] > 127 && |bytes| >= 126 ==> r'.txQueue[n].psdu == bytes[1..126])
              && (bytes[0] - 1 > |bytes| && |bytes| <= 126 ==> r'.txQueue[n].psdu == bytes[1..])
  {
    if r.free != {} {
      PsduByPhr(bytes);
    }
  }

  /** `es` neither takes the prepared buffer away nor cancels, and polls of `receive` in it stay pending. */
  predicate StillWaiting(r: Radio, es: seq<Event>)
    requires Inv(r) && PossibleRun(r, es)
    decreases es
  {
    es == [] ||
    (&& !es[0].PrepareReceive? && !es[0].DropReceive? && !es[0].Switch? && !es[0].Cancel?
     && (es[0].PollReceive? ==> ReceiveOutcome(r).None?)
     && (StepKeepsInv(r, es[0]); StillWaiting(Step(r, es[0]), es[1..])))
  }

  lemma {:induction false} BufferIsKept(r: Radio, es: seq<Event>)
    requires Inv(r) && PossibleRun(r, es) && StillWaiting(r, es) && r.rxBuffer.Some? && !r.cancelled
    ensures Run(r, es).rxBuffer == r.rxBuffer && !Run(r, es).cancelled
    decreases es
  {
    if es == [] {
    } else {
      StepKeepsInv(r, es[0]);
      BufferIsKept(Step(r, es[0]), es[1..]);
    }
  }

  /** A `receive` for which a buffer was prepared is pending as long as every frame has been taken, and the poll
      that finds one puts it in that buffer, whatever happens in between. */
  lemma PreparedReceiveDelivers(r: Radio, buffer: BufferId, es: seq<Event>)
    requires Inv(r) && PossibleRun(r, es) && es != [] && es[0] == PrepareReceive(buffer)
    requires (StepKeepsInv(r, es[0]); StillWaiting(Step(r, es[0]), es[1..]))
    requires !InInterrupt(Run(r, es))
    ensures var r' := Run(r, es);
            if |r'.taken| == |r'.arrived| then ReceiveOutcome(r') == None
            else
              && ReceiveOutcome(r') == Some(true)
              && Inv(r') && buffer in r'.buffers
              && var psdu, now := r'.arrived[|r'.taken|], Step(r', PollReceive).buffers[buffer];
                 var len := if |psdu| <= 125 then |psdu| else 125;
                 |now| == 128 && now[0] == len + 2 && now[1..1 + len] == psdu[..len]
  {
    StepKeepsInv(r, es[0]);
    BufferIsKept(Step(r, es[0]), es[1..]);
    RunKeepsInv(r, es, 0);
    var r' := Run(r, es);
    if r'.rxQueue != [] {
      ReceiveDelivers(r');
      DeliveryIsLaidOut(r'.buffers[buffer], r'.arrived[|r'.taken|]);
    }
  }

  // ---- The driver ----

  /** What polling `transmit` gives: the MACA's verdict, or false if cancelled. */
  function TransmitOutcome(r: Radio, success: nat): Option<bool> {
    if r.txStatus.Some? then Some(r.txStatus.value == success)
    else if r.cancelled then Some(false)
    else None
  }

  predicate KeepsStatus(e: Event) {
    !e.TxCallback? && !e.PollTransmit? && !e.Cancel?
  }

  /** A poll of `transmit` reports a recorded status, and forgets it. */
  lemma ReportsStatus(r: Radio, success: nat)
    requires Inv(r) && r.txStatus.Some?
    ensures TransmitOutcome(r, success) == Some(r.txStatus.value == success)
    ensures !InInterrupt(r) ==> Step(r, PollTransmit).txStatus.None?
  {
  }

  lemma {:induction false} StatusIsKept(r: Radio, es: seq<Event>)
    requires Inv(r) && PossibleRun(r, es) && r.txStatus.Some?
    requires forall e :: e in es ==> KeepsStatus(e)
    ensures Run(r, es).txStatus == r.txStatus
    decreases es
  {
    if es == [] {
    } else {
      StepKeepsInv(r, es[0]);
      assert KeepsStatus(es[0]);
      StatusIsKept(Step(r, es[0]), es[1..]);
    }
  }

  /** The MACA's verdict on a frame reaches the next poll of `transmit`, whatever happens in between, unless
      that is another verdict or a cancellation; and it is reported once. */
  lemma VerdictIsReported(r: Radio, status: nat, es: seq<Event>, success: nat)
    requires Inv(r) && PossibleRun(r, es) && es != [] && es[0] == TxCallback(status)
    requires forall e :: e in es[1..] ==> KeepsStatus(e)
    ensures var r' := Run(r, es);
            && Inv(r') && TransmitOutcome(r', success) == Some(status == success)
            && (!InInterrupt(r') ==> Step(r', PollTransmit).txStatus.None?)
  {
    StepKeepsInv(r, es[0]);
    RunKeepsInv(Step(r, es[0]), es[1..], 0);
    StatusIsKept(Step(r, es[0]), es[1..]);
    ReportsStatus(Run(Step(r, es[0]), es[1..]), success);
  }

  lemma {:induction false} UnlentIsNotWritten(r: Radio, es: seq<Event>)
    requires Inv(r) && PossibleRun(r, es) && r.rxBuffer.None?
    requires forall e :: e in es ==> !e.PrepareReceive?
    ensures Run(r, es).buffers == r.buffers && Run(r, es).rxBuffer.None?
    decreases es
  {
    if es == [] {
    } else {
      StepKeepsInv(r, es[0]);
      assert !es[0].PrepareReceive?;
      UnlentIsNotWritten(Step(r, es[0]), es[1..]);
    }
  }

  /** Once a receive is dropped, or the radio switched, no buffer is written until the next one is prepared, over
      any run; and no cancellation is left to end an operation that has yet to begin. */
  lemma ReleasedBufferIsNotWritten(r: Radio, e: Event, es: seq<Event>)
    requires Inv(r) && Enabled(r, e) && (e.DropReceive? || e.Switch?)
    requires (StepKeepsInv(r, e); PossibleRun(Step(r, e), es))
    requires forall x :: x in es ==> !x.PrepareReceive?
    ensures Run(Step(r, e), es).buffers == r.buffers
    ensures var r' := Step(r, e);
            && r'.lent.None? && (TransmitOutcome(r', 0).Some? <==> r.txStatus.Some?)
            && (ReceiveOutcome(r') == None <==> !CanPop(r))
            && (e.Switch? ==> r'.channel == e.channel && r'.txChannel == None)
  {
    StepKeepsInv(r, e);
    UnlentIsNotWritten(Step(r, e), es);
  }

  /** The non-blocking receive takes the oldest frame there is, if any, and frees its packet. */
  lemma GetReceivedTakesOldest(r: Radio)
    requires Inv(r) && Enabled(r, GetReceived)
    ensures var r' := Step(r, GetReceived);
            if |r.taken| == |r.arrived| then r' == r
            else r'.taken == r.taken + [r.arrived[|r.taken|]] && r'.free == r.free + {r.rxQueue[0].id}
  {
  }

  predicate KeepsCancelled(e: Event) {
    && !e.PrepareReceive? && !e.PollReceive? && !e.DropReceive?
    && !e.PollPrepareTransmit? && !e.PollTransmit? && !e.Switch?
  }

  lemma {:induction false} CancellationIsKept(r: Radio, es: seq<Event>)
    requires Inv(r) && PossibleRun(r, es) && r.cancelled
    requires forall e :: e in es ==> KeepsCancelled(e)
    ensures Run(r, es).cancelled
    decreases es
  {
    if es == [] {
    } else {
      StepKeepsInv(r, es[0]);
      assert KeepsCancelled(es[0]);
      CancellationIsKept(Step(r, es[0]), es[1..]);
    }
  }

  /** A cancellation wakes the task whose waker is stored; the next poll of `receive` then reports false, even if
      frames wait, and that of `transmit` too, unless the MACA has given a verdict since; and it is reported
      once. */
  lemma CancellationIsReported(r: Radio, es: seq<Event>, success: nat)
    requires Inv(r) && PossibleRun(r, es) && es != [] && es[0] == Cancel
    requires forall e :: e in es[1..] ==> KeepsCancelled(e)
    ensures Wakes(r, es[0]) <==> r.waker
    ensures var r' := Run(r, es);
            && Inv(r') && ReceiveOutcome(r') == Some(false)
            && (r'.txStatus.None? ==> TransmitOutcome(r', success) == Some(false))
            && (!InInterrupt(r') ==> !Step(r', PollReceive).cancelled)
            && (!InInterrupt(r') && r'.txStatus.None? ==> !Step(r', PollTransmit).cancelled)
    ensures TransmitOutcome(Step(r, es[0]), success) == Some(false)
  {
    StepKeepsInv(r, es[0]);
    RunKeepsInv(Step(r, es[0]), es[1..], 0);
    CancellationIsKept(Step(r, es[0]), es[1..]);
  }

  /** Writing the PHR over the first byte completes what a delivery leaves. */
  lemma PhrGoesFirst(was: seq<byte>, psdu: seq<byte>, len: nat)
    requires |was| == BUFFER_SIZE && len == Min(Min(|psdu|, MAX_PHR - 2), BUFFER_SIZE - 1)
    ensures (was[..1] + psdu[..len] + was[1 + len..])[0 := len + 2] == Delivered(was, psdu)
  {
  }

  datatype TransmitPoll = Pending | Queued | Panicked

  /**
   The driver's cells, over the C library's pool and queues and the memory of its callers. Each method is
   what one event runs inside its critical section, and is proved to take that event's step; so whatever
   every run of steps keeps, the driver keeps.
   */
  class Mc1322xRadio {
    var free: set<PacketId>
    var armed: Option<PacketId>
    var incoming: Option<Packet>
    var rxQueue: seq<Packet>
    var txQueue: seq<Packet>
    var channel: nat
    var rxBuffer: Option<BufferId>
    var rxPending: nat
    var txStatus: Option<nat>
    var txChannel: Option<nat>
    var cancelled: bool
    var waker: bool
    var buffers: map<BufferId, seq<byte>>
    ghost var lent: Option<BufferId>
    ghost var arrived: seq<seq<byte>>
    ghost var taken: seq<seq<byte>>
    /** The MACA's status for a frame that was sent. */
    const success: nat

    ghost function State(): Radio
      reads this
    {
      Radio(free, armed, incoming, rxQueue, txQueue, channel, rxBuffer, rxPending, txStatus, txChannel, cancelled,
            waker, buffers, lent, arrived, taken)
    }

    constructor (pool: set<PacketId>, buffers: map<BufferId, seq<byte>>, success: nat)
      requires forall b :: b in buffers ==> |buffers[b]| == BUFFER_SIZE
      ensures State() == Initial(pool, buffers) && Inv(State()) && this.success == success
    {
      free, armed, incoming, rxQueue, txQueue := pool, None, None, [], [];
      rxBuffer, rxPending, txStatus, txChannel, cancelled, waker := None, 0, None, None, false, false;
      this.buffers, lent, arrived, taken := buffers, None, [], [];
      this.success := success;
      channel := 0;
    }

    /** The MACA interrupt with a received frame, up to and including the callback. */
    method RxCallback(psdu: seq<byte>) returns (woken: bool)
      requires BufferInv(State()) && Enabled(State(), Event.RxCallback(psdu))
      modifies `incoming, `armed, `arrived, `rxPending, `waker
      ensures State() == Step(old(State()), Event.RxCallback(psdu))
      ensures woken == old(waker)
    {
      incoming, armed := Some(Packet(armed.value, psdu)), None;
      arrived := arrived + [psdu];
      rxPending := rxPending + 1;
      woken, waker := waker, false;
    }

    /** The MACA interrupt when the frame at the head of the queue is done with, callback included. */
    method TxCallback(status: nat) returns (woken: bool)
      requires BufferInv(State()) && Enabled(State(), Event.TxCallback(status))
      modifies `txStatus, `waker, `free, `txQueue
      ensures State() == Step(old(State()), Event.TxCallback(status))
      ensures woken == old(waker)
    {
      txStatus := Some(status);
      woken, waker := waker, false;
      free, txQueue := free + {txQueue[0].id}, txQueue[1..];
    }

    method PopReceivePacket() returns (packet: Option<Packet>)
      modifies `rxQueue, `rxPending, `taken
      ensures packet.Some? == CanPop(old(State()))
      ensures packet.Some? ==> packet.value == old(rxQueue)[0] && State() == Pop(old(State()))
      ensures packet.None? ==> State() == old(State())
    {
      if rxPending == 0 {
        return None;
      }
      if rxQueue == [] {
        return None;
      }
      packet := Some(rxQueue[0]);
      rxQueue := rxQueue[1..];
      taken := taken + [packet.value.psdu];
      rxPending := rxPending - 1;
    }

    /** Copy a popped packet's PSDU behind the first byte of `buffer`, and free the packet. */
    method CopyReceivedPsdu(packet: Packet, buffer: BufferId) returns (len: nat)
      requires buffer in buffers && |buffers[buffer]| == BUFFER_SIZE
      modifies `buffers, `free
      ensures len == Min(Min(|packet.psdu|, MAX_PHR - 2), BUFFER_SIZE - 1)
      ensures free == old(free) + {packet.id}
      ensures var was := old(buffers[buffer]);
              buffers == old(buffers)[buffer := was[..1] + packet.psdu[..len] + was[1 + len..]]
    {
      var dst := buffers[buffer];
      len := Min(Min(|packet.psdu|, MAX_PHR - 2), |dst| - 1);
      buffers := buffers[buffer := dst[..1] + packet.psdu[..len] + dst[1 + len..]];
      free := free + {packet.id};
    }

    /** Put a popped packet into the prepared buffer, if there is one, and let go of both. */
    method Deliver(packet: Packet) returns (delivered: bool)
      requires BufferInv(State())
      modifies `waker, `lent, `free, `rxBuffer, `buffers
      ensures !waker && lent == None && rxBuffer == None && free == old(free) + {packet.id}
      ensures delivered == old(rxBuffer).Some?
      ensures buffers == match old(rxBuffer)
                         case None => old(buffers)
                         case Some(b) => old(buffers)[b := Delivered(old(buffers)[b], packet.psdu)]
    {
      waker := false;
      lent := None;
      if rxBuffer.None? {
        free := free + {packet.id};
        return false;
      }
      var buffer := rxBuffer.value;
      rxBuffer := None;
      ghost var was := buffers[buffer];
      var len := CopyReceivedPsdu(packet, buffer);
      PhrGoesFirst(was, packet.psdu, len);
      buffers := buffers[buffer := buffers[buffer][0 := len + 2]];
      return true;
    }

    method PrepareReceive(buffer: BufferId)
      requires BufferInv(State()) && Enabled(State(), Event.PrepareReceive(buffer))
      modifies `rxBuffer, `lent, `cancelled
      ensures State() == Step(old(State()), Event.PrepareReceive(buffer))
    {
      rxBuffer := Some(buffer);
      lent := Some(buffer);
      cancelled := false;
    }

    /** One poll of `receive`. */
    method Receive() returns (outcome: Option<bool>)
      requires BufferInv(State()) && Enabled(State(), PollReceive)
      modifies `cancelled, `waker, `rxBuffer, `lent, `rxQueue, `rxPending, `taken, `free, `buffers
      ensures State() == Step(old(State()), PollReceive)
      ensures outcome == ReceiveOutcome(old(State()))
    {
      if cancelled {
        cancelled, waker := false, false;
        rxBuffer, lent := None, None;
        return Some(false);
      }
      var packet := PopReceivePacket();
      if packet.None? {
        waker := true;
        return None;
      }
      var delivered := Deliver(packet.value);
      return Some(delivered);
    }

    /** `receive`'s future is dropped. */
    method DropReceive()
      requires BufferInv(State()) && Enabled(State(), Event.DropReceive)
      modifies `rxBuffer, `lent, `waker, `cancelled
      ensures State() == Step(old(State()), Event.DropReceive)
    {
      rxBuffer, lent := None, None;
      waker, cancelled := false, false;
    }

    method QueueTransmit(packet: PacketId, psdu: seq<byte>)
      modifies `txQueue
      ensures txQueue == old(txQueue) + [Packet(packet, if |psdu| <= 125 then psdu else psdu[..125])]
    {
      assert psdu[..|psdu|] == psdu;
      txQueue := txQueue + [Packet(packet, psdu[..Min(|psdu|, MAX_PHR - 2)])];
    }

    method SetChannelIndex(index: nat)
      modifies `channel, `txChannel
      ensures txChannel == Some(index)
      ensures channel == if old(txChannel) == Some(index) then old(channel) else index
    {
      if txChannel != Some(index) {
        channel := index;
        txChannel := Some(index);
      }
    }

    /** Send the frame in `bytes` with the packet claimed for it, unless the slice is empty. */
    method Send(packet: PacketId, index: nat, bytes: seq<byte>) returns (ok: bool)
      modifies `channel, `txChannel, `txQueue
      ensures ok == (bytes != [])
      ensures txChannel == Some(index)
      ensures channel == if old(txChannel) == Some(index) then old(channel) else index
      ensures ok ==> txQueue == old(txQueue) + [Packet(packet, bytes[1..1 + PsduLength(bytes)])]
    {
      SetChannelIndex(index);
      var phr: int := if bytes == [] then 0 else bytes[0];
      var len := Min(Min(SaturatingSub(phr, 2), MAX_PHR - 2), SaturatingSub(|bytes|, 1));
      if 1 + len > |bytes| {
        return false;
      }
      QueueTransmit(packet, bytes[1..1 + len]);
      return true;
    }

    /** One poll of `prepare_transmit`; `id` is the packet claimed, if any. With a packet to send but nothing in
        the slice it panics. */
    method PrepareTransmit(channel: nat, bytes: seq<byte>) returns (outcome: TransmitPoll, ghost id: PacketId)
      requires BufferInv(State()) && !InInterrupt(State())
      modifies `cancelled, `waker, `free, `channel, `txChannel, `txQueue
      ensures outcome.Pending? <==> old(free) == {}
      ensures outcome.Panicked? <==> old(free) != {} && bytes == []
      ensures !outcome.Panicked? ==>
                && Enabled(old(State()), PollPrepareTransmit(channel, bytes, id))
                && State() == Step(old(State()), PollPrepareTransmit(channel, bytes, id))
    {
      cancelled := false;
      if free == {} {
        waker := true;
        return Pending, 0;
      }
      var packet :| packet in free;
      id := packet;
      free := free - {packet};
      var ok := Send(packet, channel, bytes);
      return if ok then Queued else Panicked, id;
    }

    /** One poll of `transmit`. */
    method Transmit() returns (outcome: Option<bool>)
      requires BufferInv(State()) && Enabled(State(), PollTransmit)
      modifies `txStatus, `waker, `cancelled
      ensures State() == Step(old(State()), PollTransmit)
      ensures outcome == TransmitOutcome(old(State()), success)
    {
      if txStatus.Some? {
        var status := txStatus.value;
        txStatus, waker := None, false;
        return Some(status == success);
      } else if cancelled {
        cancelled := false;
        return Some(false);
      }
      waker := true;
      return None;
    }

    method CancelCurrentOperation() returns (woken: bool)
      requires BufferInv(State()) && Enabled(State(), Cancel)
      modifies `cancelled, `txStatus, `waker
      ensures State() == Step(old(State()), Cancel)
      ensures woken == old(waker)
    {
      cancelled := true;
      txStatus := None;
      woken, waker := waker, false;
    }

    /** `enable` or `disable`. */
    method SwitchRadio(reset: nat)
      requires BufferInv(State()) && Enabled(State(), Switch(reset))
      modifies `channel, `txChannel, `cancelled, `rxBuffer, `lent
      ensures State() == Step(old(State()), Switch(reset))
    {
      channel := reset;
      txChannel, cancelled := None, false;
      rxBuffer, lent := None, None;
    }
  }
}
