/**
 The task watchdog: a table of tasks that check in, and a COP that is serviced only while none has
 starved. First the table and the COP as values with the events that change them, and what every run of
 events guarantees; then the runner's slot array, proved to take those steps.
 */
module TaskWatchdog {
  import opened Common
  import opened Cop

  type Id = nat

  datatype Setup = NoSetup | Bounded(timeout: nat) | Unbounded

  datatype TaskConfig = TaskConfig(timeout: nat, retries: nat, setup: Setup)

  datatype Task = Task(id: Id, lastFeed: nat, limit: nat, setup: Setup)

  function NewTask(id: Id, config: TaskConfig, now: nat): Task {
    Task(id, now, Min(config.timeout * (config.retries + 1), U64_MAX), config.setup)
  }

  function Fed(task: Task, now: nat): Task {
    task.(lastFeed := now, setup := NoSetup)
  }

  /** The tick from which `task` counts as starved unless it is fed. */
  function Deadline(task: Task): Option<nat> {
    match task.setup
    case NoSetup => Some(task.lastFeed + task.limit)
    case Bounded(timeout) => Some(task.lastFeed + timeout)
    case Unbounded => None
  }

  predicate IsStarved(task: Task, now: nat)
    requires task.lastFeed <= now
  {
    match task.setup
    case NoSetup => now - task.lastFeed >= task.limit
    case Bounded(timeout) => now - task.lastFeed >= timeout
    case Unbounded => false
  }

  type Table = map<Id, Task>

  /** Elapsed times can be taken: no task was fed in the future. */
  predicate InPast(table: Table, now: nat) {
    forall id :: id in table ==> table[id].lastFeed <= now
  }

  predicate AnyStarved(table: Table, now: nat)
    requires InPast(table, now)
  {
    exists id :: id in table && IsStarved(table[id], now)
  }

  function Restarted(table: Table, now: nat): Table {
    map id | id in table :: table[id].(lastFeed := now)
  }

  // ---- Runs ----

  /** `time` is in REF_OSC cycles; the runner's clock shows it in milliseconds. */
  datatype System = System(table: Table, slots: nat, cop: Cop, time: nat)

  function Now(s: System): nat {
    s.time / CYCLES_PER_MS
  }

  /**
   A registration counts from a clock reading `early` ticks old. A check decides at once, and services the
   COP `lag` cycles later; starting the COP takes `lag` too.
   */
  datatype Event =
    | Register(id: Id, config: TaskConfig, early: nat)
    | Deregister(id: Id)
    | Feed(id: Id)
    | Start(timeout: Timeout, lag: nat)
    | Check(lag: nat)
    | Elapse(cycles: nat)

  predicate Valid(s: System) {
    InPast(s.table, Now(s)) && (!s.cop.reset && s.cop.enabled ==> s.cop.count < Period(s.cop.timeout))
  }

  function Later(s: System, cycles: nat): System {
    s.(time := s.time + cycles, cop := Tick(s.cop, cycles))
  }

  function Step(s: System, e: Event): (s': System)
    requires Valid(s)
    ensures Valid(s')
  {
    match e
    case Register(id, config, early) =>
      if id in s.table || |s.table| < s.slots
      then s.(table := s.table[id := NewTask(id, config, SaturatingSub(Now(s), early))]) else s
    case Deregister(id) => s.(table := s.table - {id})
    case Feed(id) => if id in s.table then s.(table := s.table[id := Fed(s.table[id], Now(s))]) else s
    case Start(timeout, lag) =>
      if s.cop.locked || s.cop.reset then s
      else s.(table := Restarted(s.table, Now(s)), cop := Cop(true, false, timeout, 0, false), time := s.time + lag)
    case Check(lag) =>
      if AnyStarved(s.table, Now(s)) then Later(s, lag) else Later(s, lag).(cop := Service(Tick(s.cop, lag)))
    case Elapse(cycles) => Later(s, cycles)
  }

  lemma StepValid(s: System, e: Event)
    requires Valid(s)
    ensures Valid(Step(s, e))
  {
  }

  function Run(s: System, es: seq<Event>): (s': System)
    requires Valid(s)
    ensures Valid(s')
    decreases es
  {
    if es == [] then s else (StepValid(s, es[0]); Run(Step(s, es[0]), es[1..]))
  }

  /** The runner's clock shows whole milliseconds. */
  lemma NowIsWholeMillis(s: System)
    ensures 24_000 * Now(s) <= s.time < 24_000 * (Now(s) + 1)
  {
  }

  lemma {:induction false} RunExtends(s: System, es: seq<Event>, e: Event)
    requires Valid(s)
    ensures Run(s, es + [e]) == Step(Run(s, es), e)
    decreases es
  {
    if es == [] {
      assert [] + [e] == [e] && Run(Step(s, e), [e][1..]) == Step(s, e);
    } else {
      assert (es + [e])[0] == es[0] && (es + [e])[1..] == es[1..] + [e];
      RunExtends(Step(s, es[0]), es[1..], e);
    }
  }

  /** Once locked, the COP runs on with the time-out it has, whatever happens. */
  lemma {:induction false} LockedRunKeepsCop(s: System, es: seq<Event>)
    requires Valid(s) && s.cop.locked
    ensures var cop := Run(s, es).cop;
            cop.locked && cop.enabled == s.cop.enabled && cop.timeout == s.cop.timeout
    decreases es
  {
    if es == [] {
    } else {
      LockedRunKeepsCop(Step(s, es[0]), es[1..]);
    }
  }

  /** Unless it is locked or has reset the chip, a start makes the COP run anew, with the time-out asked for: with
      nothing to service it, it resets the chip exactly that long after. */
  lemma StartArmsCop(s: System, timeout: Timeout, lag: nat, cycles: nat)
    requires Valid(s) && !s.cop.locked && !s.cop.reset
    ensures var s' := Step(Step(s, Event.Start(timeout, lag)), Elapse(cycles));
            && s'.time == s.time + lag + cycles && !s'.cop.locked
            && (s'.cop.reset <==> cycles >= (timeout + 1) * 0x20_0000)
  {
  }

  /** When the COP was last serviced. */
  function LastService(s: System): int {
    s.time - s.cop.count
  }

  /** Nothing in `es` restarts or ends the count of task `id`, and no check takes more than `slack` cycles. */
  predicate LeavesAlone(es: seq<Event>, id: Id, slack: nat) {
    forall e :: e in es ==>
      match e
      case Register(i, _, _) => i != id
      case Deregister(i) => i != id
      case Feed(i) => i != id
      case Start(_, _) => false
      case Check(lag) => lag <= slack
      case Elapse(_) => true
  }

  // ---- When a task counts as starved ----

  /** Nothing in `es` restarts or ends the count of task `id`. */
  predicate Untouched(es: seq<Event>, id: Id) {
    es == [] ||
    (match es[0]
     case Register(i, _, _) => i != id && Untouched(es[1..], id)
     case Deregister(i) => i != id && Untouched(es[1..], id)
     case Feed(i) => i != id && Untouched(es[1..], id)
     case Start(_, _) => false
     case _ => Untouched(es[1..], id))
  }

  /** Nothing in `es` begins or ends a registration of task `id`. */
  predicate StaysRegistered(es: seq<Event>, id: Id) {
    es == [] ||
    (match es[0]
     case Register(i, _, _) => i != id && StaysRegistered(es[1..], id)
     case Deregister(i) => i != id && StaysRegistered(es[1..], id)
     case _ => StaysRegistered(es[1..], id))
  }

  lemma {:induction false} UntouchedKeepsTask(s: System, es: seq<Event>, id: Id)
    requires Valid(s) && id in s.table && Untouched(es, id)
    ensures id in Run(s, es).table && Run(s, es).table[id] == s.table[id] && Now(s) <= Now(Run(s, es))
    decreases es
  {
    if es == [] {
    } else {
      assert Step(s, es[0]).table[id] == s.table[id] && Now(s) <= Now(Step(s, es[0]));
      UntouchedKeepsTask(Step(s, es[0]), es[1..], id);
    }
  }

  /** A task whose registration has ended cannot starve until it is registered again. */
  lemma {:induction false} GoneTaskStaysGone(s: System, es: seq<Event>, id: Id)
    requires Valid(s) && id !in s.table && StaysRegistered(es, id)
    ensures id !in Run(s, es).table
    decreases es
  {
    if es == [] {
    } else {
      GoneTaskStaysGone(Step(s, es[0]), es[1..], id);
    }
  }

  lemma DeregisteredTaskIsGone(s: System, id: Id, later: seq<Event>)
    requires Valid(s) && StaysRegistered(later, id)
    ensures id !in Run(Step(s, Deregister(id)), later).table
    ensures forall other :: other in s.table && other != id ==>
              other in Step(s, Deregister(id)).table && Step(s, Deregister(id)).table[other] == s.table[other]
  {
    GoneTaskStaysGone(Step(s, Deregister(id)), later, id);
  }

  lemma {:induction false} RegisteredKeepsLimit(s: System, es: seq<Event>, id: Id)
    requires Valid(s) && id in s.table && StaysRegistered(es, id)
    ensures id in Run(s, es).table && Run(s, es).table[id].limit == s.table[id].limit
    decreases es
  {
    if es == [] {
    } else {
      assert Step(s, es[0]).table[id].limit == s.table[id].limit;
      RegisteredKeepsLimit(Step(s, es[0]), es[1..], id);
    }
  }

  /** After a feed, whatever came between it and the registration, and whatever setup phase that asked for, the
      task is starved exactly from `timeout * (retries + 1)` ticks later, until it is touched again. */
  lemma FedTaskStarvesAtLimit(s: System, id: Id, config: TaskConfig, early: nat, es: seq<Event>, later: seq<Event>)
    requires Valid(s) && (id in s.table || |s.table| < s.slots)
    requires StaysRegistered(es, id) && Untouched(later, id)
    ensures var fed := Step(Run(Step(s, Register(id, config, early)), es), Feed(id));
            var s' := Run(fed, later);
            id in s'.table &&
            (IsStarved(s'.table[id], Now(s'))
             <==> Now(s') - Now(fed) >= Min(config.timeout * (config.retries + 1), U64_MAX))
  {
    var registered := Step(s, Register(id, config, early));
    RegisteredKeepsLimit(registered, es, id);
    UntouchedKeepsTask(Step(Run(registered, es), Feed(id)), later, id);
  }

  /** Before any feed the setup phase counts: a bounded one is starved from its own time-out on, an unbounded one
      never, and without one the limit applies at once. */
  lemma NewTaskStarvesAtSetup(s: System, id: Id, config: TaskConfig, early: nat, later: seq<Event>)
    requires Valid(s) && (id in s.table || |s.table| < s.slots)
    requires early <= Now(s) && Untouched(later, id)
    ensures var s' := Run(Step(s, Register(id, config, early)), later);
            var waited := Now(s') - (Now(s) - early);
            id in s'.table &&
            (IsStarved(s'.table[id], Now(s'))
             <==> match config.setup
                  case NoSetup => waited >= Min(config.timeout * (config.retries + 1), U64_MAX)
                  case Bounded(timeout) => waited >= timeout
                  case Unbounded => false)
  {
    UntouchedKeepsTask(Step(s, Register(id, config, early)), later, id);
  }

  /** Starting the COP counts every task anew from then. */
  lemma StartedTaskStarvesAtSetup(s: System, id: Id, timeout: Timeout, lag: nat, later: seq<Event>)
    requires Valid(s) && id in s.table && !s.cop.locked && !s.cop.reset && Untouched(later, id)
    ensures var s' := Run(Step(s, Event.Start(timeout, lag)), later);
            var waited := Now(s') - Now(s);
            id in s'.table &&
            (IsStarved(s'.table[id], Now(s'))
             <==> match s.table[id].setup
                  case NoSetup => waited >= s.table[id].limit
                  case Bounded(setup) => waited >= setup
                  case Unbounded => false)
  {
    UntouchedKeepsTask(Step(s, Event.Start(timeout, lag)), later, id);
  }

  lemma StepLeavesAlone(s: System, e: Event, id: Id, slack: nat)
    requires Valid(s) && s.cop.enabled && id in s.table && Deadline(s.table[id]).Some?
    requires LeavesAlone([e], id, slack)
    ensures var s' := Step(s, e);
            && id in s'.table && s'.table[id] == s.table[id]
            && s'.cop.enabled && s'.cop.timeout == s.cop.timeout && (s.cop.reset ==> s'.cop.reset)
            && (!s'.cop.reset ==> LastService(s') == LastService(s)
                                  || LastService(s') < Deadline(s.table[id]).value * CYCLES_PER_MS + slack)
  {
    assert e in [e];
    if e.Check? && !AnyStarved(s.table, Now(s)) {
      assert !IsStarved(s.table[id], Now(s));
    }
  }

  /** While a monitored task is left alone, no check at or after its deadline services the COP. */
  lemma {:induction false} StarvedTaskStopsService(s: System, es: seq<Event>, id: Id, slack: nat)
    requires Valid(s) && s.cop.enabled && id in s.table && Deadline(s.table[id]).Some?
    requires LeavesAlone(es, id, slack)
    ensures var s' := Run(s, es);
            && Valid(s') && s'.cop.enabled && s'.cop.timeout == s.cop.timeout
            && (s.cop.reset ==> s'.cop.reset)
            && (!s'.cop.reset ==> LastService(s') <= LastService(s)
                                  || LastService(s') < Deadline(s.table[id]).value * CYCLES_PER_MS + slack)
    decreases es
  {
    if es == [] {
    } else {
      var e := es[0];
      StepValid(s, e);
      assert forall x :: x in es[1..] ==> x in es;
      assert e in es;
      StepLeavesAlone(s, e, id, slack);
      StarvedTaskStopsService(Step(s, e), es[1..], id, slack);
    }
  }

  /** The task watchdog's promise: the chip is reset within one COP period, and the time a check takes, of
      a starved task's deadline (or of the last service, if the deadline was over by then). */
  lemma StarvedTaskResets(s: System, es: seq<Event>, id: Id, slack: nat)
    requires Valid(s) && s.cop.enabled && id in s.table && Deadline(s.table[id]).Some?
    requires LeavesAlone(es, id, slack)
    requires Run(s, es).time >= Deadline(s.table[id]).value * CYCLES_PER_MS + slack + Period(s.cop.timeout)
    requires Run(s, es).time >= LastService(s) + Period(s.cop.timeout)
    ensures Run(s, es).cop.reset
  {
    StarvedTaskStopsService(s, es, id, slack);
  }

  /** Every check finds every task within its limit, and each check comes less than `ms` milliseconds
      after the one before it; `since` is the cycles since the last. */
  predicate Healthy(s: System, es: seq<Event>, ms: nat, since: nat)
    requires Valid(s)
    decreases es
  {
    es == [] ||
    (StepValid(s, es[0]);
     match es[0]
     case Check(lag) =>
       !AnyStarved(s.table, Now(s)) && since + lag < ms * CYCLES_PER_MS && Healthy(Step(s, es[0]), es[1..], ms, 0)
     case Elapse(cycles) =>
       since + cycles < ms * CYCLES_PER_MS && Healthy(Step(s, es[0]), es[1..], ms, since + cycles)
     case Start(timeout, _) => FromMillis(ms) == Some(timeout) && Healthy(Step(s, es[0]), es[1..], ms, since)
     case _ => Healthy(Step(s, es[0]), es[1..], ms, since))
  }

  /** Healthy tasks never cause a reset, for any hardware time-out the COP accepts. */
  lemma {:induction false} HealthyRunNeverResets(s: System, es: seq<Event>, ms: nat, since: nat)
    requires Valid(s) && s.cop.enabled && !s.cop.reset && FromMillis(ms) == Some(s.cop.timeout)
    requires s.cop.count <= since && Healthy(s, es, ms, since)
    ensures !Run(s, es).cop.reset
    decreases es
  {
    FromMillisIsLeast(ms);
    if es == [] {
    } else {
      StepValid(s, es[0]);
      var since' := match es[0] case Check(_) => 0 case Elapse(cycles) => since + cycles case _ => since;
      HealthyRunNeverResets(Step(s, es[0]), es[1..], ms, since');
    }
  }

  // ---- The slot array ----

  predicate Taken(slots: seq<Option<Task>>, i: int) {
    0 <= i < |slots| && slots[i].Some?
  }

  /** Each id is in at most one slot. */
  ghost predicate Unique(slots: seq<Option<Task>>) {
    forall i, j :: Taken(slots, i) && Taken(slots, j) && slots[i].value.id == slots[j].value.id ==> i == j
  }

  ghost predicate Holds(slots: seq<Option<Task>>, id: Id) {
    exists i :: Taken(slots, i) && slots[i].value.id == id
  }

  /** `table` has exactly the tasks in the slots. */
  ghost predicate Shows(slots: seq<Option<Task>>, table: Table) {
    && (forall i :: Taken(slots, i) ==> slots[i].value.id in table && table[slots[i].value.id] == slots[i].value)
    && (forall id :: id in table ==> Holds(slots, id))
  }

  /** The map the slots stand for. */
  ghost function TableOf(slots: seq<Option<Task>>): (table: Table)
    decreases |slots|
  {
    if slots == [] then map[]
    else
      var last := slots[|slots| - 1];
      var table := TableOf(slots[..|slots| - 1]);
      if last.Some? then table[last.value.id := last.value] else table
  }

  lemma {:induction false} TableOfShows(slots: seq<Option<Task>>)
    requires Unique(slots)
    ensures Shows(slots, TableOf(slots))
    decreases |slots|
  {
    if slots == [] {
    } else {
      var n := |slots| - 1;
      var init := slots[..n];
      assert forall i :: Taken(init, i) <==> Taken(slots, i) && i < n;
      TableOfShows(init);
      forall id | id in TableOf(slots)
        ensures Holds(slots, id)
      {
        if Holds(init, id) {
          var i :| Taken(init, i) && init[i].value.id == id;
          assert Taken(slots, i);
        } else {
          assert Taken(slots, n);
        }
      }
    }
  }

  lemma ShowsOnlyOne(slots: seq<Option<Task>>, t1: Table, t2: Table)
    requires Shows(slots, t1) && Shows(slots, t2)
    ensures t1 == t2
  {
  }

  ghost predicate HasFree(slots: seq<Option<Task>>) {
    exists i :: 0 <= i < |slots| && !Taken(slots, i)
  }

  lemma KeyAdded<K, V>(m: map<K, V>, k: K, v: V)
    requires k !in m
    ensures |m[k := v]| == |m| + 1
  {
    assert m[k := v].Keys == m.Keys + {k};
  }

  /** Whether a slot is free, if the last one is not. */
  lemma FreeBeforeLast(slots: seq<Option<Task>>)
    requires slots != [] && Taken(slots, |slots| - 1)
    ensures HasFree(slots) == HasFree(slots[..|slots| - 1])
  {
    var init := slots[..|slots| - 1];
    if HasFree(slots) {
      var i :| 0 <= i < |slots| && !Taken(slots, i);
      assert !Taken(init, i);
    }
    if HasFree(init) {
      var i :| 0 <= i < |init| && !Taken(init, i);
      assert !Taken(slots, i);
    }
  }

  /** The map has room exactly while a slot is free. */
  lemma {:induction false} RoomIffFreeSlot(slots: seq<Option<Task>>)
    requires Unique(slots)
    ensures |TableOf(slots)| <= |slots|
    ensures |TableOf(slots)| < |slots| <==> HasFree(slots)
    decreases |slots|
  {
    if slots == [] {
    } else {
      var n := |slots| - 1;
      var init := slots[..n];
      assert forall i :: Taken(init, i) <==> Taken(slots, i) && i < n;
      RoomIffFreeSlot(init);
      if Taken(slots, n) {
        TableOfShows(init);
        KeyAdded(TableOf(init), slots[n].value.id, slots[n].value);
        FreeBeforeLast(slots);
      } else {
        assert HasFree(slots);
      }
    }
  }

  lemma SlotFilled(slots: seq<Option<Task>>, i: nat, task: Task)
    requires Unique(slots) && i < |slots|
    requires if Taken(slots, i) then slots[i].value.id == task.id else !Holds(slots, task.id)
    ensures Unique(slots[i := Some(task)])
    ensures TableOf(slots[i := Some(task)]) == TableOf(slots)[task.id := task]
  {
    var slots' := slots[i := Some(task)];
    var table := TableOf(slots)[task.id := task];
    TableOfShows(slots);
    assert forall j :: Taken(slots', j) <==> Taken(slots, j) || j == i;
    forall id | id in table
      ensures Holds(slots', id)
    {
      if id == task.id {
        assert Taken(slots', i);
      } else {
        var j :| Taken(slots, j) && slots[j].value.id == id;
        assert Taken(slots', j);
      }
    }
    TableOfShows(slots');
    ShowsOnlyOne(slots', TableOf(slots'), table);
  }

  lemma SlotCleared(slots: seq<Option<Task>>, i: nat)
    requires Unique(slots) && Taken(slots, i)
    ensures Unique(slots[i := None]) && TableOf(slots[i := None]) == TableOf(slots) - {slots[i].value.id}
  {
    var slots' := slots[i := None];
    var table := TableOf(slots) - {slots[i].value.id};
    TableOfShows(slots);
    assert forall j :: Taken(slots', j) <==> Taken(slots, j) && j != i;
    forall id | id in table
      ensures Holds(slots', id)
    {
      var j :| Taken(slots, j) && slots[j].value.id == id;
      assert Taken(slots', j);
    }
    TableOfShows(slots');
    ShowsOnlyOne(slots', TableOf(slots'), table);
  }

  lemma SlotsRestarted(slots: seq<Option<Task>>, slots': seq<Option<Task>>, now: nat)
    requires Unique(slots) && |slots'| == |slots|
    requires forall j :: 0 <= j < |slots| ==>
      slots'[j] == if slots[j].Some? then Some(slots[j].value.(lastFeed := now)) else None
    ensures Unique(slots') && TableOf(slots') == Restarted(TableOf(slots), now)
  {
    var table := Restarted(TableOf(slots), now);
    TableOfShows(slots);
    assert forall j :: Taken(slots', j) <==> Taken(slots, j);
    forall id | id in table
      ensures Holds(slots', id)
    {
      var j :| Taken(slots, j) && slots[j].value.id == id;
      assert Taken(slots', j);
    }
    TableOfShows(slots');
    ShowsOnlyOne(slots', TableOf(slots'), table);
  }

  class WatchdogRunner {
    const slots: array<Option<Task>>
    const dog: Watchdog
    const hardwareTimeout: nat

    constructor (capacity: nat, dog: Watchdog, hardwareTimeout: nat)
      ensures Ok() && fresh(slots) && slots.Length == capacity && Table() == map[]
      ensures this.dog == dog && this.hardwareTimeout == hardwareTimeout
    {
      slots := new Option<Task>[capacity](_ => None);
      this.dog := dog;
      this.hardwareTimeout := hardwareTimeout;
      new;
      TableOfShows(slots[..]);
      assert forall i :: !Taken(slots[..], i);
    }

    ghost predicate Ok()
      reads this, slots
    {
      Unique(slots[..])
    }

    ghost function Table(): Table
      reads this, slots
    {
      TableOf(slots[..])
    }

    /** The runner and its COP at `time`. */
    ghost function At(time: nat): System
      reads this, slots, dog
    {
      System(Table(), slots.Length, dog.cop, time)
    }

    /** The slot of task `id`, or past the end. */
    method Find(id: Id) returns (i: nat)
      requires Ok()
      ensures i <= slots.Length
      ensures i < slots.Length ==> Taken(slots[..], i) && slots[i].value.id == id
                                     && id in Table() && Table()[id] == slots[i].value
      ensures i == slots.Length ==> id !in Table() && !Holds(slots[..], id)
    {
      i := 0;
      while i < slots.Length
        invariant i <= slots.Length
        invariant forall j :: 0 <= j < i && Taken(slots[..], j) ==> slots[j].value.id != id
      {
        if slots[i].Some? && slots[i].value.id == id {
          TableOfShows(slots[..]);
          assert Taken(slots[..], i);
          return;
        }
        i := i + 1;
      }
      assert !Holds(slots[..], id);
      TableOfShows(slots[..]);
    }

    /** The first free slot, or past the end. */
    method FindFree() returns (i: nat)
      ensures i <= slots.Length
      ensures i < slots.Length ==> !Taken(slots[..], i)
      ensures i == slots.Length ==> forall j :: 0 <= j < slots.Length ==> Taken(slots[..], j)
    {
      i := 0;
      while i < slots.Length
        invariant i <= slots.Length
        invariant forall j :: 0 <= j < i ==> Taken(slots[..], j)
      {
        if slots[i].None? {
          return;
        }
        i := i + 1;
      }
    }

    /** The clock was read, as `now`, before the table was locked. */
    method RegisterTask(id: Id, config: TaskConfig, now: nat, ghost time: nat) returns (ok: bool)
      requires Ok() && Valid(At(time)) && now <= Now(At(time))
      modifies slots
      ensures Ok() && At(time) == Step(old(At(time)), Register(id, config, Now(old(At(time))) - now))
      ensures ok == (id in old(Table()) || |old(Table())| < slots.Length)
      ensures !ok ==> slots[..] == old(slots[..])
    {
      ghost var before := slots[..];
      RoomIffFreeSlot(before);
      var task := NewTask(id, config, now);
      var i := Find(id);
      if i == slots.Length {
        i := FindFree();
        if i == slots.Length {
          return false;
        }
        assert HasFree(before) by { assert !Taken(before, i); }
      }
      slots[i] := Some(task);
      SlotFilled(before, i, task);
      assert slots[..] == before[i := Some(task)];
      return true;
    }

    method DeregisterTask(id: Id, ghost time: nat)
      requires Ok() && Valid(At(time))
      modifies slots
      ensures Ok() && At(time) == Step(old(At(time)), Deregister(id))
    {
      ghost var before := slots[..];
      var i := Find(id);
      if i < slots.Length {
        slots[i] := None;
        SlotCleared(before, i);
        assert slots[..] == before[i := None];
      }
    }

    method FeedTask(id: Id, now: nat, ghost time: nat)
      requires Ok() && Valid(At(time)) && now == Now(At(time))
      modifies slots
      ensures Ok() && At(time) == Step(old(At(time)), Feed(id))
    {
      ghost var before := slots[..];
      var i := Find(id);
      if i < slots.Length {
        var task := Fed(slots[i].value, now);
        slots[i] := Some(task);
        SlotFilled(before, i, task);
        assert slots[..] == before[i := Some(task)];
      }
    }

    /** Service the COP unless a task has starved. */
    method CheckTasks(now: nat, ghost time: nat) returns (starved: bool, ghost lag: nat)
      requires Ok() && Valid(At(time)) && now == Now(At(time))
      modifies dog
      ensures Ok() && lag <= dog.pace && At(time + lag) == Step(old(At(time)), Check(lag))
      ensures starved == AnyStarved(old(Table()), now)
    {
      TableOfShows(slots[..]);
      starved := false;
      var i := 0;
      while i < slots.Length && !starved
        invariant i <= slots.Length
        invariant starved ==> AnyStarved(Table(), now)
        invariant !starved ==> forall j :: 0 <= j < i && Taken(slots[..], j) ==> !IsStarved(slots[j].value, now)
      {
        if slots[i].Some? {
          assert Taken(slots[..], i);
          starved := IsStarved(slots[i].value, now);
        }
        i := i + 1;
      }
      lag := 0;
      if !starved {
        dog.Feed();
        lag :| lag <= dog.pace && dog.cop == Service(Tick(old(dog.cop), lag));
      }
    }

    /** Restart every task's count and start the COP, however long, `lag`, that takes. It panics, which shows
        as not `ok`, exactly if no setting is as long as the time-out or the COP is locked. */
    method Start(now: nat, ghost time: nat, ghost lag: nat) returns (ok: bool)
      requires Ok() && Valid(At(time)) && now == Now(At(time)) && dog.pace < STEP_CYCLES
      modifies slots, dog
      ensures Ok() && ok == (FromMillis(hardwareTimeout).Some? && !old(dog.cop).locked)
      ensures FromMillis(hardwareTimeout).Some? && old(dog.Safe(2)) ==> !dog.cop.reset
      ensures ok && !dog.cop.reset ==>
                At(time + lag) == Step(old(At(time)), Event.Start(FromMillis(hardwareTimeout).value, lag))
    {
      ghost var before := slots[..];
      for i := 0 to slots.Length
        invariant forall j :: 0 <= j < slots.Length ==>
          slots[j] == if j < i && before[j].Some? then Some(before[j].value.(lastFeed := now)) else before[j]
        modifies slots
      {
        if slots[i].Some? {
          slots[i] := Some(slots[i].value.(lastFeed := now));
        }
      }
      SlotsRestarted(before, slots[..], now);
      MillisOfSaturates(hardwareTimeout);
      var timeout := FromMillis(MillisOf(hardwareTimeout));
      if timeout.None? {
        return false;
      }
      ok := dog.Start(timeout.value);
    }
  }
}
