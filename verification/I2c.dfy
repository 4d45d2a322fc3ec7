/**
 Blocking I2C transactions. What the driver does to the bus is recorded as actions; how the bus answers
 each is up to the environment. A transaction is proved to follow a plan that depends only on the list of
 operations, as far as the bus lets it, and then to release the bus exactly once.
 */
module I2c {
  import opened Common

  datatype Operation = Read(length: nat) | Write(data: seq<byte>)

  datatype Action =
    | Address(repeated: bool, read: bool) // a START (or repeated START) and the address byte
    | Send(value: byte)                   // one data byte out
    | Discard                             // switch to receiving; drop the address byte
    | Fetch(nack: bool)                   // take a received byte; with nack, refuse the one after it
    | Drain                               // wait out the refused byte
    | Stop

  datatype Error = ArbitrationLost | AddressRefused | DataRefused

  // ---- The plan ----

  function Opening(prev: Option<bool>, isRead: bool): seq<Action> {
    match prev
    case None => [Address(false, isRead)]
    case Some(p) => if p != isRead then [Address(true, isRead)] else []
  }

  function Sends(data: seq<byte>): seq<Action> {
    seq(|data|, i requires 0 <= i < |data| => Send(data[i]))
  }

  function Fetches(length: nat, nackTail: bool): seq<Action> {
    seq(length, i => Fetch(nackTail && i + 1 == length))
  }

  function Tail(length: nat, nackTail: bool): seq<Action> {
    if nackTail && length > 0 then [Drain] else []
  }

  function Body(op: Operation, prev: Option<bool>, isLast: bool): seq<Action> {
    match op
    case Write(data) => Sends(data)
    case Read(length) =>
      (if prev == Some(true) then [] else [Discard]) + (Fetches(length, isLast) + Tail(length, isLast))
  }

  function Part(op: Operation, prev: Option<bool>, isLast: bool): seq<Action> {
    Opening(prev, op.Read?) + Body(op, prev, isLast)
  }

  /** The direction of the last of `ops`. */
  function DirectionAfter(ops: seq<Operation>): Option<bool> {
    if ops == [] then None else Some(ops[|ops| - 1].Read?)
  }

  /** The actions of `ops` as the first of `total` operations. */
  function PlanOf(ops: seq<Operation>, total: nat): seq<Action> {
    if ops == [] then []
    else
      var init := ops[..|ops| - 1];
      PlanOf(init, total) + Part(ops[|ops| - 1], DirectionAfter(init), |ops| == total)
  }

  function Plan(ops: seq<Operation>): seq<Action> {
    PlanOf(ops, |ops|)
  }

  // ---- What the plan amounts to ----

  /** What an action means on the bus. Data bytes apart, these are the events that structure it. */
  datatype Kind = START | REPEATED_START | STOP | REFUSAL | OTHER

  function KindOf(a: Action): Kind {
    match a
    case Address(repeated, _) => if repeated then REPEATED_START else START
    case Stop => STOP
    case Fetch(nack) => if nack then REFUSAL else OTHER
    case _ => OTHER
  }

  function Count(actions: seq<Action>, k: Kind): nat {
    if actions == [] then 0 else (if KindOf(actions[0]) == k then 1 else 0) + Count(actions[1..], k)
  }

  function SentBytes(actions: seq<Action>): seq<byte> {
    if actions == [] then []
    else (if actions[0].Send? then [actions[0].value] else []) + SentBytes(actions[1..])
  }

  lemma {:induction false} CountConcat(s: seq<Action>, t: seq<Action>, k: Kind)
    ensures Count(s + t, k) == Count(s, k) + Count(t, k)
  {
    if s == [] {
      assert s + t == t;
    } else {
      assert (s + t)[1..] == s[1..] + t;
      CountConcat(s[1..], t, k);
    }
  }

  lemma {:induction false} SentConcat(s: seq<Action>, t: seq<Action>)
    ensures SentBytes(s + t) == SentBytes(s) + SentBytes(t)
  {
    if s == [] {
      assert s + t == t;
    } else {
      var x := if s[0].Send? then [s[0].value] else [];
      assert (s + t)[0] == s[0] && (s + t)[1..] == s[1..] + t;
      SentConcat(s[1..], t);
      assert SentBytes(s + t) == x + (SentBytes(s[1..]) + SentBytes(t)) == (x + SentBytes(s[1..])) + SentBytes(t);
    }
  }

  lemma {:induction false} CountNone(s: seq<Action>, k: Kind)
    requires forall x :: x in s ==> KindOf(x) != k
    ensures Count(s, k) == 0
  {
    if s == [] {
    } else {
      CountNone(s[1..], k);
    }
  }

  lemma {:induction false} SentNone(s: seq<Action>)
    requires forall x :: x in s ==> !x.Send?
    ensures SentBytes(s) == []
  {
    if s == [] {
    } else {
      SentNone(s[1..]);
    }
  }

  lemma {:induction false} SendsSend(data: seq<byte>)
    ensures SentBytes(Sends(data)) == data
  {
    if data == [] {
    } else {
      assert Sends(data)[1..] == Sends(data[1..]);
      SendsSend(data[1..]);
    }
  }

  lemma {:induction false} FetchesRefuseLast(length: nat, nackTail: bool)
    ensures Count(Fetches(length, nackTail), REFUSAL) == if nackTail && length > 0 then 1 else 0
    ensures |Fetches(length, nackTail)| == length
    ensures forall i :: 0 <= i < length ==> Fetches(length, nackTail)[i] == Fetch(nackTail && i == length - 1)
  {
    if length == 0 {
    } else {
      assert Fetches(length, nackTail)[1..] == Fetches(length - 1, nackTail);
      FetchesRefuseLast(length - 1, nackTail);
    }
  }

  /** Receiving refuses a byte exactly at the end of a transaction, if it reads anything. */
  lemma ReadRefuses(length: nat, prev: Option<bool>, isLast: bool)
    ensures Count(Body(Read(length), prev, isLast), REFUSAL) == if isLast && length > 0 then 1 else 0
  {
    var head := if prev == Some(true) then [] else [Discard];
    CountConcat(head, Fetches(length, isLast) + Tail(length, isLast), REFUSAL);
    CountConcat(Fetches(length, isLast), Tail(length, isLast), REFUSAL);
    FetchesRefuseLast(length, isLast);
    CountNone(head, REFUSAL);
    CountNone(Tail(length, isLast), REFUSAL);
  }

  predicate EndsByReading(ops: seq<Operation>) {
    ops != [] && ops[|ops| - 1].Read? && ops[|ops| - 1].length > 0
  }

  lemma BodyCounts(op: Operation, prev: Option<bool>, isLast: bool, k: Kind)
    requires k != OTHER
    ensures Count(Body(op, prev, isLast), k) == if k == REFUSAL && isLast && EndsByReading([op]) then 1 else 0
  {
    if op.Read? && k == REFUSAL {
      ReadRefuses(op.length, prev, isLast);
    } else {
      CountNone(Body(op, prev, isLast), k);
    }
  }

  lemma BodySends(op: Operation, prev: Option<bool>, isLast: bool)
    ensures SentBytes(Body(op, prev, isLast)) == if op.Write? then op.data else []
  {
    match op
    case Write(data) => SendsSend(data);
    case Read(_) => SentNone(Body(op, prev, isLast));
  }

  function WrittenBytes(ops: seq<Operation>): seq<byte> {
    if ops == [] then []
    else WrittenBytes(ops[..|ops| - 1]) + if ops[|ops| - 1].Write? then ops[|ops| - 1].data else []
  }

  /** How often the direction changes. */
  function Turns(ops: seq<Operation>): nat {
    if |ops| <= 1 then 0
    else Turns(ops[..|ops| - 1]) + if ops[|ops| - 1].Read? != ops[|ops| - 2].Read? then 1 else 0
  }

  /** One START, a repeated START for every change of direction and none besides, no STOP, and one refused
      byte if the transaction ends by reading. */
  function Planned(ops: seq<Operation>, k: Kind): nat
    requires k != OTHER
  {
    match k
    case START => if ops == [] then 0 else 1
    case REPEATED_START => Turns(ops)
    case STOP => 0
    case REFUSAL => if EndsByReading(ops) then 1 else 0
  }

  /** What one operation adds to that. */
  function PlannedPart(op: Operation, prev: Option<bool>, isLast: bool, k: Kind): nat
    requires k != OTHER
  {
    match k
    case START => if prev.None? then 1 else 0
    case REPEATED_START => if prev == Some(!op.Read?) then 1 else 0
    case STOP => 0
    case REFUSAL => if isLast && EndsByReading([op]) then 1 else 0
  }

  function PlannedOf(ops: seq<Operation>, total: nat, k: Kind): nat
    requires k != OTHER
  {
    if k == REFUSAL && |ops| < total then 0 else Planned(ops, k)
  }

  lemma PlannedGrows(ops: seq<Operation>, total: nat, k: Kind)
    requires k != OTHER && 0 < |ops| <= total
    ensures var init, last := ops[..|ops| - 1], ops[|ops| - 1];
            PlannedOf(ops, total, k)
            == PlannedOf(init, total, k) + PlannedPart(last, DirectionAfter(init), |ops| == total, k)
  {
  }

  lemma PartCounts(op: Operation, prev: Option<bool>, isLast: bool, k: Kind)
    requires k != OTHER
    ensures Count(Part(op, prev, isLast), k) == PlannedPart(op, prev, isLast, k)
  {
    CountConcat(Opening(prev, op.Read?), Body(op, prev, isLast), k);
    BodyCounts(op, prev, isLast, k);
  }

  lemma {:induction false} PlanCounts(ops: seq<Operation>, total: nat, k: Kind)
    requires k != OTHER && |ops| <= total
    ensures Count(PlanOf(ops, total), k) == PlannedOf(ops, total, k)
    decreases |ops|
  {
    if ops == [] {
    } else {
      var init, last := ops[..|ops| - 1], ops[|ops| - 1];
      PlanCounts(init, total, k);
      PartCounts(last, DirectionAfter(init), |ops| == total, k);
      CountConcat(PlanOf(init, total), Part(last, DirectionAfter(init), |ops| == total), k);
      PlannedGrows(ops, total, k);
    }
  }

  lemma PartSends(op: Operation, prev: Option<bool>, isLast: bool)
    ensures SentBytes(Part(op, prev, isLast)) == if op.Write? then op.data else []
  {
    SentConcat(Opening(prev, op.Read?), Body(op, prev, isLast));
    SentNone(Opening(prev, op.Read?));
    BodySends(op, prev, isLast);
  }

  /** All written bytes are sent, in order. */
  lemma {:induction false} PlanSends(ops: seq<Operation>, total: nat)
    ensures SentBytes(PlanOf(ops, total)) == WrittenBytes(ops)
    decreases |ops|
  {
    if ops == [] {
    } else {
      var init, last := ops[..|ops| - 1], ops[|ops| - 1];
      PlanSends(init, total);
      PartSends(last, DirectionAfter(init), |ops| == total);
      SentConcat(PlanOf(init, total), Part(last, DirectionAfter(init), |ops| == total));
    }
  }

  // ---- What the device at the other end sees ----

  /** A stretch of a transaction in one direction. Being addressed to send, a device has its address byte still
      to be taken; a read that has refused a byte is closed once that byte is over. */
  datatype Segment =
    | Written(data: seq<byte>)
    | AddressedToSend
    | BeingRead(count: nat)
    | Refused(count: nat)
    | Closed(count: nat)
    | Confused

  datatype Heard = Nothing | Heard(before: seq<Segment>, last: Segment)

  function Turn(h: Heard, s: Segment): Heard {
    match h
    case Nothing => Heard([], s)
    case Heard(before, last) => Heard(before + [last], s)
  }

  function Extend(s: Segment, a: Action): Segment {
    match (s, a)
    case (Written(data), Send(value)) => Written(data + [value])
    case (AddressedToSend, Discard) => BeingRead(0)
    case (BeingRead(count), Fetch(nack)) => if nack then Refused(count + 1) else BeingRead(count + 1)
    case (Refused(count), Drain) => Closed(count)
    case _ => Confused
  }

  /** The first address byte comes with a START, every other with a repeated one. */
  function Hear(h: Heard, a: Action): Heard {
    if a.Address? then
      Turn(h, if a.repeated == h.Nothing? then Confused else if a.read then AddressedToSend else Written([]))
    else
      match h
      case Nothing => Turn(h, Confused)
      case Heard(before, last) => Heard(before, Extend(last, a))
  }

  function HearAll(h: Heard, actions: seq<Action>): Heard
    decreases actions
  {
    if actions == [] then h else HearAll(Hear(h, actions[0]), actions[1..])
  }

  /** What was heard of operations, the last of them in direction `prev`. */
  predicate HeardUpTo(h: Heard, prev: Option<bool>) {
    match prev
    case None => h == Nothing
    case Some(isRead) => h.Heard? && if isRead then h.last.BeingRead? else h.last.Written?
  }

  /** One more operation: more of the last segment if that has its direction, a new one if not. */
  function Requesting(h: Heard, op: Operation): Heard {
    match op
    case Write(data) =>
      if HeardUpTo(h, Some(false)) then h.(last := Written(h.last.data + data)) else Turn(h, Written(data))
    case Read(length) =>
      if HeardUpTo(h, Some(true)) then h.(last := BeingRead(h.last.count + length)) else Turn(h, BeingRead(length))
  }

  /** The operations, those next to each other in the same direction taken together. */
  function Requests(ops: seq<Operation>): Heard {
    if ops == [] then Nothing else Requesting(Requests(ops[..|ops| - 1]), ops[|ops| - 1])
  }

  function Closing(h: Heard, close: bool): Heard {
    if close && HeardUpTo(h, Some(true)) then h.(last := Closed(h.last.count)) else h
  }

  lemma {:induction false} HearConcat(h: Heard, s: seq<Action>, t: seq<Action>)
    ensures HearAll(h, s + t) == HearAll(HearAll(h, s), t)
    decreases s
  {
    if s == [] {
      assert s + t == t;
    } else {
      assert (s + t)[0] == s[0] && (s + t)[1..] == s[1..] + t;
      HearConcat(Hear(h, s[0]), s[1..], t);
    }
  }

  lemma HearOne(h: Heard, a: Action)
    ensures HearAll(h, [a]) == Hear(h, a)
  {
    assert HearAll(Hear(h, a), [a][1..]) == Hear(h, a);
  }

  lemma {:induction false} SendsAreHeard(h: Heard, data: seq<byte>)
    requires HeardUpTo(h, Some(false))
    ensures HearAll(h, Sends(data)) == h.(last := Written(h.last.data + data))
    decreases data
  {
    if data == [] {
      assert h.last.data + data == h.last.data;
    } else {
      assert Sends(data)[1..] == Sends(data[1..]);
      SendsAreHeard(Hear(h, Send(data[0])), data[1..]);
      assert h.last.data + [data[0]] + data[1..] == h.last.data + data;
    }
  }

  lemma {:induction false} FetchesAreHeard(h: Heard, length: nat, nackTail: bool)
    requires HeardUpTo(h, Some(true))
    ensures var count := h.last.count + length;
            HearAll(h, Fetches(length, nackTail))
            == h.(last := if nackTail && length > 0 then Refused(count) else BeingRead(count))
    decreases length
  {
    if length > 0 {
      assert Fetches(length, nackTail)[0] == Fetch(nackTail && length == 1);
      assert Fetches(length, nackTail)[1..] == Fetches(length - 1, nackTail);
      if length > 1 {
        FetchesAreHeard(Hear(h, Fetch(false)), length - 1, nackTail);
      }
    }
  }

  lemma ReceivingIsHeard(h: Heard, length: nat, isLast: bool)
    requires HeardUpTo(h, Some(true))
    ensures HearAll(h, Fetches(length, isLast) + Tail(length, isLast))
            == Closing(Requesting(h, Read(length)), isLast && length > 0)
  {
    HearConcat(h, Fetches(length, isLast), Tail(length, isLast));
    FetchesAreHeard(h, length, isLast);
    if isLast && length > 0 {
      HearOne(h.(last := Refused(h.last.count + length)), Drain);
    }
  }

  lemma WriteIsHeard(h: Heard, data: seq<byte>, prev: Option<bool>, isLast: bool)
    requires HeardUpTo(h, prev)
    ensures HearAll(h, Part(Write(data), prev, isLast)) == Requesting(h, Write(data))
  {
    HearConcat(h, Opening(prev, false), Sends(data));
    if prev == Some(false) {
      SendsAreHeard(h, data);
    } else {
      HearOne(h, Address(prev.Some?, false));
      SendsAreHeard(Turn(h, Written([])), data);
      assert [] + data == data;
    }
  }

  lemma ReadIsHeard(h: Heard, length: nat, prev: Option<bool>, isLast: bool)
    requires HeardUpTo(h, prev)
    ensures HearAll(h, Part(Read(length), prev, isLast)) == Closing(Requesting(h, Read(length)), isLast && length > 0)
  {
    var receiving := Fetches(length, isLast) + Tail(length, isLast);
    HearConcat(h, Opening(prev, true), Body(Read(length), prev, isLast));
    if prev == Some(true) {
      assert [] + receiving == receiving;
      ReceivingIsHeard(h, length, isLast);
    } else {
      HearOne(h, Address(prev.Some?, true));
      HearConcat(Turn(h, AddressedToSend), [Discard], receiving);
      HearOne(Turn(h, AddressedToSend), Discard);
      ReceivingIsHeard(Turn(h, BeingRead(0)), length, isLast);
    }
  }

  lemma PartIsHeard(h: Heard, op: Operation, prev: Option<bool>, isLast: bool)
    requires HeardUpTo(h, prev)
    ensures HearAll(h, Part(op, prev, isLast)) == Closing(Requesting(h, op), isLast && EndsByReading([op]))
  {
    match op
    case Write(data) => WriteIsHeard(h, data, prev, isLast);
    case Read(length) => ReadIsHeard(h, length, prev, isLast);
  }

  /** What the device makes of a transaction's plan is what was asked for: the bytes of adjacent writes
      together, as many bytes as adjacent reads ask for together, one address byte between, and the byte after
      the last one read, and no other, refused and waited out. */
  lemma {:induction false} PlanIsHeard(ops: seq<Operation>, total: nat)
    requires |ops| <= total
    ensures HeardUpTo(Requests(ops), DirectionAfter(ops))
    ensures HearAll(Nothing, PlanOf(ops, total)) == Closing(Requests(ops), |ops| == total && EndsByReading(ops))
    decreases |ops|
  {
    if ops == [] {
    } else {
      var init, last := ops[..|ops| - 1], ops[|ops| - 1];
      PlanIsHeard(init, total);
      HearConcat(Nothing, PlanOf(init, total), Part(last, DirectionAfter(init), |ops| == total));
      PartIsHeard(Requests(init), last, DirectionAfter(init), |ops| == total);
    }
  }

  lemma {:induction false} PlanOfPrefix(ops: seq<Operation>, i: nat, total: nat)
    requires i <= |ops|
    ensures PlanOf(ops[..i], total) <= PlanOf(ops, total)
    decreases |ops|
  {
    if i < |ops| {
      var init := ops[..|ops| - 1];
      assert init[..i] == ops[..i];
      PlanOfPrefix(init, i, total);
    } else {
      assert ops[..i] == ops;
    }
  }

  // ---- The driver ----

  datatype Result = Ok | Err(error: Error)

  /** Success means the plan was completed; a refusal, that the last action was the refused one. */
  predicate EndsRightly(plan: seq<Action>, k: nat, result: Result)
    requires k <= |plan|
  {
    match result
    case Ok => k == |plan|
    case Err(ArbitrationLost) => true
    case Err(AddressRefused) => k > 0 && plan[k - 1].Address?
    case Err(DataRefused) => k > 0 && plan[k - 1].Send?
  }

  /** A transaction that got as far as `done` of its plan, ended with `result`, and released the bus. */
  ghost predicate Ended(plan: seq<Action>, trace: seq<Action>, result: Result) {
    exists k: nat {:trigger EndsRightly(plan, k, result)} ::
      k <= |plan| && EndsRightly(plan, k, result) && trace == plan[..k] + [Stop]
  }

  /** `trace` follows `plan`: to its end, or to the failure `result`. */
  ghost predicate Follows(trace: seq<Action>, plan: seq<Action>, result: Result) {
    if result.Ok? then trace == plan else Ended(plan, trace, result)
  }

  lemma FailureNow(plan: seq<Action>, n: nat, result: Result)
    requires n <= |plan| && result.Err? && EndsRightly(plan, n, result)
    ensures Ended(plan, plan[..n] + [Stop], result)
  {
  }

  /** A failure in the first part of a plan is one of the whole. */
  lemma FailureInFirst(first: seq<Action>, rest: seq<Action>, trace: seq<Action>, result: Result)
    requires result.Err? && Ended(first, trace, result)
    ensures Ended(first + rest, trace, result)
  {
    var n: nat :| n <= |first| && EndsRightly(first, n, result) && trace == first[..n] + [Stop];
    assert (first + rest)[..n] == first[..n];
    FailureNow(first + rest, n, result);
  }

  /** Following one part and then the other is following the whole. */
  lemma FollowsNext(first: seq<Action>, rest: seq<Action>, trace: seq<Action>, result: Result)
    requires Follows(trace, rest, result)
    ensures Follows(first + trace, first + rest, result)
  {
    if result.Err? {
      var n: nat :| n <= |rest| && EndsRightly(rest, n, result) && trace == rest[..n] + [Stop];
      assert (first + rest)[..|first| + n] == first + rest[..n];
      assert n > 0 ==> (first + rest)[|first| + n - 1] == rest[n - 1];
      FailureNow(first + rest, |first| + n, result);
      assert first + trace == (first + rest)[..|first| + n] + [Stop];
    }
  }

  lemma FailureInPrefix(first: seq<Action>, plan: seq<Action>, trace: seq<Action>, result: Result)
    requires first <= plan && result.Err? && Ended(first, trace, result)
    ensures Ended(plan, trace, result)
  {
    assert plan == first + plan[|first|..];
    FailureInFirst(first, plan[|first|..], trace, result);
  }

  /** A part's actions either all happen, extending what was done so far, or fail the plan. */
  lemma NextPart(done: seq<Action>, part: seq<Action>, plan: seq<Action>, more: seq<Action>, result: Result)
    requires done + part <= plan && Follows(more, part, result)
    ensures if result.Ok? then done + more == done + part else Ended(plan, done + more, result)
  {
    FollowsNext(done, part, more, result);
    if result.Err? {
      FailureInPrefix(done + part, plan, done + more, result);
    }
  }

  lemma PlanNext(ops: seq<Operation>, i: nat)
    requires i < |ops|
    ensures PlanOf(ops[..i], |ops|) + Part(ops[i], DirectionAfter(ops[..i]), i + 1 == |ops|)
            == PlanOf(ops[..i + 1], |ops|) <= Plan(ops)
  {
    assert ops[..i + 1][..i] == ops[..i];
    PlanOfPrefix(ops, i + 1, |ops|);
  }

  /** An operation's actions either all happen, extending those of the operations before it, or fail the plan. */
  lemma NextOperation(ops: seq<Operation>, i: nat, part: seq<Action>, more: seq<Action>, result: Result)
    requires i < |ops| && part == Part(ops[i], DirectionAfter(ops[..i]), i + 1 == |ops|)
    requires Follows(more, part, result)
    ensures var did := PlanOf(ops[..i], |ops|) + more;
            if result.Ok? then did == PlanOf(ops[..i + 1], |ops|) else Ended(Plan(ops), did, result)
  {
    PlanNext(ops, i);
    NextPart(PlanOf(ops[..i], |ops|), part, Plan(ops), more, result);
  }

  /** What was done begins with a START and the address byte. */
  predicate Begun(did: seq<Action>, isRead: bool) {
    did != [] && did[0] == Address(false, isRead)
  }

  /** What it means if the other side refuses the byte in flight: nothing, if it is one received. */
  function Refusal(trace: seq<Action>): Option<Error> {
    if trace == [] then None
    else if trace[|trace| - 1].Address? then Some(AddressRefused)
    else if trace[|trace| - 1].Send? then Some(DataRefused)
    else None
  }

  /** No byte is in flight after `op`: not after a write, nor after a read that has refused one. */
  predicate WaitsForLast(op: Operation, isLast: bool) {
    op.Write? || (isLast && op.length > 0)
  }

  /** A transaction whose last operation leaves no byte in flight. */
  predicate EndsSettled(ops: seq<Operation>) {
    ops != [] && WaitsForLast(ops[|ops| - 1], true)
  }

  class I2c0 {
    /** What the driver has done to the bus. */
    var trace: seq<Action>
    /** `I2C_SR.RXAK`: the last byte out was refused. */
    var refused: bool
    /** The first failure the bus reported in this transaction, and how much had been done to it by then. */
    ghost var failure: Option<(Error, nat)>
    /** The last byte on the bus has been waited for. */
    ghost var settled: bool

    constructor ()
      ensures trace == []
    {
      trace, refused, failure := [], false, None;
    }

    /** `result` is what the bus reported first, at once followed by releasing it. */
    ghost predicate Reported(result: Result)
      reads this
    {
      match result
      case Ok => failure.None?
      case Err(error) => trace != [] && failure == Some((error, |trace| - 1))
    }

    method Release()
      modifies `trace
      ensures trace == old(trace) + [Stop]
    {
      trace := trace + [Stop];
    }

    /** Wait for the byte in flight. Losing arbitration releases the bus. */
    method WaitByte() returns (result: Result)
      requires failure.None?
      modifies this
      ensures result == Ok || result == Err(ArbitrationLost)
      ensures trace == if result.Ok? then old(trace) else old(trace) + [Stop]
      ensures result.Err? ==> Reported(result)
      ensures result.Ok? ==> settled
      ensures result.Ok? ==> failure == if refused && Refusal(trace).Some? then Some((Refusal(trace).value, |trace|))
                                        else None
    {
      var lost: bool := *;
      refused := *;
      if lost {
        failure := Some((ArbitrationLost, |trace|));
        Release();
        return Err(ArbitrationLost);
      }
      failure := if refused && Refusal(trace).Some? then Some((Refusal(trace).value, |trace|)) else None;
      settled := true;
      return Ok;
    }

    /** START, or repeated START, and the address byte. */
    method SendAddress(repeated: bool, read: bool) returns (result: Result, ghost did: seq<Action>)
      requires failure.None?
      modifies this
      ensures Reported(result)
      ensures trace == old(trace) + did && Follows(did, [Address(repeated, read)], result)
      ensures did != [] && did[0] == Address(repeated, read)
      ensures result.Ok? ==> settled
    {
      ghost var plan := [Address(repeated, read)];
      trace, settled := trace + [Address(repeated, read)], false;
      result := WaitByte();
      if result.Ok? && refused {
        Release();
        result := Err(AddressRefused);
      }
      assert plan[..1] == plan;
      did := if result.Ok? then plan else plan + [Stop];
      if result.Err? {
        FailureNow(plan, 1, result);
      }
    }

    method TransmitData(data: seq<byte>) returns (result: Result, ghost did: seq<Action>)
      requires failure.None?
      modifies this
      ensures Reported(result)
      ensures trace == old(trace) + did && Follows(did, Sends(data), result)
      ensures result.Ok? && (data == [] ==> old(settled)) ==> settled
    {
      ghost var plan := Sends(data);
      did := [];
      for i := 0 to |data|
        invariant failure.None? && (i == 0 ==> settled == old(settled)) && (i > 0 ==> settled)
        invariant trace == old(trace) + did && did == plan[..i]
      {
        trace, settled := trace + [Send(data[i])], false;
        did := did + [Send(data[i])];
        assert did == plan[..i + 1];
        result := WaitByte();
        if result.Ok? && refused {
          Release();
          result := Err(DataRefused);
        }
        if result.Err? {
          did := did + [Stop];
          FailureNow(plan, i + 1, result);
          return;
        }
      }
      result := Ok;
    }

    method FetchBytes(length: nat, nackTail: bool) returns (result: Result, ghost did: seq<Action>)
      requires failure.None? && Refusal(trace).None?
      modifies this
      ensures Reported(result) && Refusal(trace).None?
      ensures trace == old(trace) + did && Follows(did, Fetches(length, nackTail), result)
    {
      ghost var plan := Fetches(length, nackTail);
      did := [];
      for i := 0 to length
        invariant failure.None? && Refusal(trace).None?
        invariant trace == old(trace) + did && did == plan[..i]
      {
        result := WaitByte();
        if result.Err? {
          FailureNow(plan, i, result);
          did := did + [Stop];
          return;
        }
        trace, settled := trace + [Fetch(nackTail && i + 1 == length)], false;
        did := did + [Fetch(nackTail && i + 1 == length)];
        assert did == plan[..i + 1];
      }
      result := Ok;
    }

    /** Fetch bytes, and if nothing is to follow, wait out the refused one. */
    method ContinueReceive(length: nat, nackTail: bool) returns (result: Result, ghost did: seq<Action>)
      requires failure.None? && Refusal(trace).None?
      modifies this
      ensures Reported(result) && Refusal(trace).None?
      ensures trace == old(trace) + did
      ensures Follows(did, Fetches(length, nackTail) + Tail(length, nackTail), result)
      ensures result.Ok? && nackTail && length > 0 ==> settled
    {
      ghost var fetches := Fetches(length, nackTail);
      result, did := FetchBytes(length, nackTail);
      if result.Err? {
        FailureInFirst(fetches, Tail(length, nackTail), did, result);
        return;
      }
      if nackTail && length > 0 {
        result := WaitByte();
        if result.Err? {
          FailureNow([Drain], 0, result);
          assert [Drain][..0] + [Stop] == [Stop];
          FollowsNext(fetches, [Drain], [Stop], result);
          did := fetches + [Stop];
          return;
        }
        trace := trace + [Drain];
        did := did + [Drain];
      }
    }

    /** Switch to receiving after the address byte, and receive. */
    method ReceiveData(length: nat, nackTail: bool) returns (result: Result, ghost did: seq<Action>)
      requires failure.None?
      modifies this
      ensures Reported(result) && Refusal(trace).None?
      ensures trace == old(trace) + did
      ensures Follows(did, [Discard] + (Fetches(length, nackTail) + Tail(length, nackTail)), result)
      ensures result.Ok? && nackTail && length > 0 ==> settled
    {
      trace, settled := trace + [Discard], false;
      result, did := ContinueReceive(length, nackTail);
      FollowsNext([Discard], Fetches(length, nackTail) + Tail(length, nackTail), did, result);
      did := [Discard] + did;
    }

    /** The repeated or first START an operation needs. */
    method Open(prev: Option<bool>, isRead: bool) returns (result: Result, ghost did: seq<Action>)
      requires failure.None?
      modifies this
      ensures Reported(result)
      ensures trace == old(trace) + did && Follows(did, Opening(prev, isRead), result)
      ensures prev != Some(isRead) ==> did != [] && did[0] == Address(prev.Some?, isRead)
      ensures result.Ok? ==> settled == if prev == Some(isRead) then old(settled) else true
    {
      result, did := Ok, [];
      match prev
      case None =>
        result, did := SendAddress(false, isRead);
      case Some(p) =>
        if p != isRead {
          result, did := SendAddress(true, isRead);
        }
    }

    method Transfer(op: Operation, prev: Option<bool>, isLast: bool) returns (result: Result, ghost did: seq<Action>)
      requires failure.None? && (prev == Some(true) && op.Read? ==> Refusal(trace).None?)
      modifies this
      ensures Reported(result) && (op.Read? ==> Refusal(trace).None?)
      ensures trace == old(trace) + did && Follows(did, Body(op, prev, isLast), result)
      ensures result.Ok? && (op.Write? ==> old(settled)) && WaitsForLast(op, isLast) ==> settled
    {
      match op
      case Write(data) =>
        result, did := TransmitData(data);
      case Read(length) =>
        if prev != Some(true) {
          result, did := ReceiveData(length, isLast);
        } else {
          result, did := ContinueReceive(length, isLast);
          ghost var receiving := Fetches(length, isLast) + Tail(length, isLast);
          assert [] + receiving == receiving;
        }
    }

    method Perform(op: Operation, prev: Option<bool>, isLast: bool) returns (result: Result, ghost did: seq<Action>)
      requires failure.None? && (prev == Some(true) ==> Refusal(trace).None?) && (prev == Some(false) ==> settled)
      modifies this
      ensures Reported(result) && (op.Read? ==> Refusal(trace).None?)
      ensures result.Ok? && WaitsForLast(op, isLast) ==> settled
      ensures trace == old(trace) + did && Follows(did, Part(op, prev, isLast), result)
      ensures prev != Some(op.Read?) ==> did != [] && did[0] == Address(prev.Some?, op.Read?)
    {
      ghost var opening, body := Opening(prev, op.Read?), Body(op, prev, isLast);
      result, did := Open(prev, op.Read?);
      if result.Err? {
        FailureInFirst(opening, body, did, result);
        return;
      }
      ghost var more;
      result, more := Transfer(op, prev, isLast);
      FollowsNext(opening, body, more, result);
      did := did + more;
    }

    /** Carry out the `i`th operation, those before it being `done` since the trace was `before`. */
    method PerformNext(ops: seq<Operation>, i: nat, prev: Option<bool>, ghost before: seq<Action>,
                       ghost done: seq<Action>)
      returns (result: Result, ghost did: seq<Action>)
      requires i < |ops| && prev == DirectionAfter(ops[..i])
      requires trace == before + done && done == PlanOf(ops[..i], |ops|)
      requires failure.None? && (prev == Some(true) ==> Refusal(trace).None?) && (prev == Some(false) ==> settled)
      modifies this
      ensures Reported(result) && (ops[i].Read? ==> Refusal(trace).None?)
      ensures result.Ok? && WaitsForLast(ops[i], i + 1 == |ops|) ==> settled
      ensures trace == before + did && done <= did
      ensures i == 0 ==> Begun(did, ops[0].Read?)
      ensures if result.Ok? then did == PlanOf(ops[..i + 1], |ops|) else Ended(Plan(ops), did, result)
    {
      ghost var part, more := Part(ops[i], prev, i + 1 == |ops|), [];
      result, more := Perform(ops[i], prev, i + 1 == |ops|);
      Regroup(before, done, more);
      did := done + more;
      NextOperation(ops, i, part, more, result);
    }

    /** Carry out the operations one after the other, up to the first failure. */
    method PerformAll(ops: seq<Operation>) returns (result: Result, ghost did: seq<Action>)
      requires failure.None?
      modifies this
      ensures Reported(result)
      ensures trace == old(trace) + did && Follows(did, Plan(ops), result)
      ensures ops != [] ==> Begun(did, ops[0].Read?)
      ensures result.Ok? && EndsSettled(ops) ==> settled
    {
      result, did := Ok, [];
      var prev: Option<bool> := None;
      var i := 0;
      while i < |ops| && result.Ok?
        invariant i <= |ops| && trace == old(trace) + did && Reported(result)
        invariant prev == Some(true) ==> Refusal(trace).None?
        invariant result.Ok? && (prev == Some(false) || (i == |ops| && EndsSettled(ops))) ==> settled
        invariant if i == 0 then result.Ok? else Begun(did, ops[0].Read?)
        invariant if result.Ok? then prev == DirectionAfter(ops[..i]) && did == PlanOf(ops[..i], |ops|)
                  else Ended(Plan(ops), did, result)
      {
        result, did := PerformNext(ops, i, prev, old(trace), did);
        prev := Some(ops[i].Read?);
        i := i + 1;
      }
      assert ops[..|ops|] == ops;
    }

    /** Carry out `ops`. An empty list does nothing; any other follows its plan up to the first failure the bus
        reports, which is the error returned, or to its end if there is none; but always begins with a START and
        ends with one STOP. That of a successful one comes when the last byte is over, unless it ends with an
        empty read. */
    method Transaction(ops: seq<Operation>) returns (result: Result, ghost did: seq<Action>)
      modifies this
      ensures trace == old(trace) + did
      ensures if ops == [] then result == Ok && did == []
              else Begun(did, ops[0].Read?) && Ended(Plan(ops), did, result)
      ensures Reported(result)
      ensures result.Ok? && EndsSettled(ops) ==> settled
    {
      failure := None;
      if ops == [] {
        return Ok, [];
      }
      result, did := PerformAll(ops);
      if result.Ok? {
        Release();
        assert did == did[..|did|] && EndsRightly(did, |did|, Ok);
        did := did + [Stop];
      }
    }
  }

  /** Cutting a plan short and releasing the bus adds a STOP and no other event. */
  lemma CutCounts(plan: seq<Action>, n: nat, k: Kind)
    requires n <= |plan|
    ensures Count(plan[..n] + [Stop], k) == Count(plan[..n], k) + if k == STOP then 1 else 0
    ensures Count(plan[..n], k) <= Count(plan, k) && (n == |plan| ==> Count(plan[..n], k) == Count(plan, k))
  {
    assert plan == plan[..n] + plan[n..];
    CountConcat(plan[..n], plan[n..], k);
    CountConcat(plan[..n], [Stop], k);
    assert [Stop][1..] == [];
  }

  lemma BegunCounts(did: seq<Action>, isRead: bool)
    requires Begun(did, isRead)
    ensures 1 <= Count(did, START)
  {
  }

  /** What every finished transaction's trace looks like: one START, and it comes first; one STOP, and it comes
      last; no more repeated STARTs than changes of direction; and exactly as many if it succeeded. */
  lemma TraceCounts(ops: seq<Operation>, trace: seq<Action>, result: Result, k: Kind)
    requires ops != [] && k != OTHER && Begun(trace, ops[0].Read?) && Ended(Plan(ops), trace, result)
    ensures trace[|trace| - 1] == Stop
    ensures k == START || k == STOP ==> Count(trace, k) == 1
    ensures k != STOP ==> Count(trace, k) <= Planned(ops, k)
    ensures k != STOP && result.Ok? ==> Count(trace, k) == Planned(ops, k)
  {
    var plan := Plan(ops);
    var n: nat :| n <= |plan| && EndsRightly(plan, n, result) && trace == plan[..n] + [Stop];
    CutCounts(plan, n, k);
    PlanCounts(ops, |ops|, k);
    BegunCounts(trace, ops[0].Read?);
  }

  /** The written bytes go out in order up to the failure, and all of them if there is none. */
  lemma TraceSends(ops: seq<Operation>, trace: seq<Action>, result: Result)
    requires Ended(Plan(ops), trace, result)
    ensures SentBytes(trace) <= WrittenBytes(ops) && (result.Ok? ==> SentBytes(trace) == WrittenBytes(ops))
  {
    var plan := Plan(ops);
    var n: nat :| n <= |plan| && EndsRightly(plan, n, result) && trace == plan[..n] + [Stop];
    assert plan == plan[..n] + plan[n..];
    SentConcat(plan[..n], plan[n..]);
    SentConcat(plan[..n], [Stop]);
    SentNone([Stop]);
    PlanSends(ops, |ops|);
    if result.Ok? {
      assert plan[..n] == plan;
    }
  }

  /** And a transaction that succeeds has been to the device just what was asked for, then a STOP. */
  lemma TraceIsHeard(ops: seq<Operation>, trace: seq<Action>)
    requires Ended(Plan(ops), trace, Ok)
    ensures trace[|trace| - 1] == Stop
    ensures HearAll(Nothing, trace[..|trace| - 1]) == Closing(Requests(ops), EndsByReading(ops))
  {
    var plan := Plan(ops);
    var n: nat :| n <= |plan| && EndsRightly(plan, n, Ok) && trace == plan[..n] + [Stop];
    assert trace[..|trace| - 1] == plan;
    PlanIsHeard(ops, |ops|);
  }
}
