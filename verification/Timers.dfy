/** The timer table, the countdown scheduler of the PC system, and the naive clock
    that the scheduler must be indistinguishable from. */
module Timers {

  const MAX_TIMERS: nat := 64
  const NULL_TIMER_INTERVAL: nat := 0xffff_ffff
  const MIN_TIMER_PERIOD: nat := 1
  const MAX_BIT64S: nat := 0x7fff_ffff_ffff_ffff
  const TWO_TO_THE_32: nat := 0x1_0000_0000

  /** A callback pointer: NULL, or the callback's identity. */
  datatype Handler = NoHandler | Callback(id: nat)

  datatype Timer = Timer(inUse: bool, period: nat, timeToFire: nat,
                         active: bool, continuous: bool, funct: Handler)

  const UNUSED: Timer := Timer(false, 0, 0, false, false, NoHandler)

  /** The timer slots and the bound below which slots are scanned. */
  datatype Table = Table(slots: seq<Timer>, count: nat)

  /** The calls a device may make on the timer framework. `Rearm` is `activate_timer`
      with zero microseconds, which takes the period stored in the slot. */
  datatype Op =
    | Activate(timer: nat, ticks: nat, repeats: bool)
    | Rearm(timer: nat, repeats: bool)
    | Deactivate(timer: nat)
    | Register(handler: Handler, ticks: nat, repeats: bool, armed: bool)
    | Unregister(timer: nat)

  /** One callback invocation. */
  datatype Event = Fired(time: nat, timer: nat, handler: Handler)

  /** What each callback does: an arbitrary function of everything that has fired so far,
      the invocation in progress being the last entry. */
  type Devices = seq<Event> -> seq<Op>

  // ---------------------------------------------------------------- the timer table

  ghost predicate WellFormed(t: Table) {
    && |t.slots| == MAX_TIMERS
    && 1 <= t.count <= MAX_TIMERS
  }

  function AtLeastMinimum(ticks: nat): nat {
    if ticks < MIN_TIMER_PERIOD then MIN_TIMER_PERIOD else ticks
  }

  function Armed(t: Timer, now: nat, ticks: nat, repeats: bool): Timer {
    t.(period := ticks, timeToFire := now + ticks, active := true, continuous := repeats)
  }

  /** The slot a registration takes: the first one not in use, or the bound itself. */
  function FreeSlot(t: Table, from: nat): (i: nat)
    requires from <= t.count <= |t.slots|
    ensures from <= i <= t.count
    ensures i < t.count ==> !t.slots[i].inUse
    ensures forall j :: from <= j < i ==> t.slots[j].inUse
    decreases t.count - from
  {
    if from == t.count || !t.slots[from].inUse then from else FreeSlot(t, from + 1)
  }

  /** Calls on slot 0 or on a slot beyond the bound are panics of the source; they, like
      the panics for a full table or a busy slot, leave the table as it is. */
  predicate Addresses(t: Table, i: nat) {
    0 < i < t.count
  }

  function Apply(t: Table, now: nat, op: Op): (r: Table)
    requires WellFormed(t)
    ensures WellFormed(r)
  {
    match op
    case Activate(i, ticks, repeats) =>
      if Addresses(t, i) then
        t.(slots := t.slots[i := Armed(t.slots[i], now, AtLeastMinimum(ticks), repeats)])
      else t
    case Rearm(i, repeats) =>
      if Addresses(t, i) then
        t.(slots := t.slots[i := Armed(t.slots[i], now, AtLeastMinimum(t.slots[i].period), repeats)])
      else t
    case Deactivate(i) =>
      if Addresses(t, i) then t.(slots := t.slots[i := t.slots[i].(active := false)]) else t
    case Register(f, ticks, repeats, armed) =>
      if t.count >= MAX_TIMERS then t
      else
        var i := FreeSlot(t, 1);
        var p := AtLeastMinimum(ticks);
        Table(t.slots[i := Timer(true, p, now + p, armed, repeats, f)],
              if i == t.count then t.count + 1 else t.count)
    case Unregister(i) =>
      if Addresses(t, i) && t.slots[i].inUse && !t.slots[i].active then
        Table(t.slots[i := Timer(false, MAX_BIT64S, MAX_BIT64S, false, false, NoHandler)],
              if i == t.count - 1 then t.count - 1 else t.count)
      else t
  }

  /** A table whose bound is at the limit takes no registration, although the search finds a
      slot that is free. */
  lemma FullTableRefuses(t: Table, i: nat, now: nat, f: Handler, ticks: nat, repeats: bool, armed: bool)
    requires WellFormed(t) && t.count == 64 && 0 < i < 64 && !t.slots[i].inUse
    ensures Apply(t, now, Register(f, ticks, repeats, armed)) == t
    ensures FreeSlot(t, 1) <= i < t.count && !t.slots[FreeSlot(t, 1)].inUse
  {
  }

  /** Such a table: all slots registered but the fifth. */
  lemma FullTableWithFreeSlot(now: nat, f: Handler)
    ensures var t := Table(seq(MAX_TIMERS, i => if i == 5 then UNUSED else Timer(true, 1, 1, false, false, f)), MAX_TIMERS);
      FreeSlot(t, 1) == 5 && Apply(t, now, Register(f, 1, false, true)) == t
  {
    var t := Table(seq(MAX_TIMERS, i => if i == 5 then UNUSED else Timer(true, 1, 1, false, false, f)), MAX_TIMERS);
    FullTableRefuses(t, 5, now, f, 1, false, true);
  }

  /** The delay with which an operation arms a timer, when it arms one. */
  function ArmingDelay(t: Table, op: Op): (d: int)
    requires WellFormed(t)
    ensures d == -1 || d >= MIN_TIMER_PERIOD
  {
    match op
    case Activate(i, ticks, _) => if Addresses(t, i) then AtLeastMinimum(ticks) else -1
    case Rearm(i, _) => if Addresses(t, i) then AtLeastMinimum(t.slots[i].period) else -1
    case Register(_, ticks, _, armed) => if t.count < MAX_TIMERS && armed then AtLeastMinimum(ticks) else -1
    case _ => -1
  }

  predicate Due(t: Timer, now: nat) {
    t.active && t.timeToFire == now
  }

  /** What servicing a slot does before any callback runs. */
  function Serviced(t: Timer, now: nat): Timer {
    if !Due(t, now) then t
    else if t.continuous then t.(timeToFire := t.timeToFire + t.period)
    else t.(active := false)
  }

  function ServicedTable(t: Table, now: nat): Table
    requires WellFormed(t)
  {
    t.(slots := seq(MAX_TIMERS, i requires 0 <= i < MAX_TIMERS =>
      if i < t.count then Serviced(t.slots[i], now) else t.slots[i]))
  }

  function DueSet(t: Table, now: nat): set<nat>
    requires WellFormed(t)
  {
    set i: nat | i < t.count && Due(t.slots[i], now)
  }

  // ---------------------------------------------------------------- the naive clock

  /** A clock that looks at every timer on every tick. */
  datatype Clock = Clock(now: nat, table: Table, log: seq<Event>)

  function Call(c: Clock, op: Op): (r: Clock)
    requires WellFormed(c.table)
    ensures WellFormed(r.table)
  {
    c.(table := Apply(c.table, c.now, op))
  }

  function CallAll(c: Clock, ops: seq<Op>): (r: Clock)
    requires WellFormed(c.table)
    ensures WellFormed(r.table)
    decreases |ops|
  {
    if ops == [] then c else CallAll(Call(c, ops[0]), ops[1..])
  }

  /** Runs the callbacks of the slots in `due` from slot `i` upwards. The set was fixed
      before the first of them ran; the handler is read when its turn comes. */
  function NotifyFrom(c: Clock, due: set<nat>, i: nat, devices: Devices): (r: Clock)
    requires WellFormed(c.table)
    ensures WellFormed(r.table)
    decreases |c.table.slots| - i
  {
    if i >= |c.table.slots| then c
    else if i in due && c.table.slots[i].funct.Callback? then
      var told := c.(log := c.log + [Fired(c.now, i, c.table.slots[i].funct)]);
      NotifyFrom(CallAll(told, devices(told.log)), due, i + 1, devices)
    else NotifyFrom(c, due, i + 1, devices)
  }

  function ClockTick(c: Clock, devices: Devices): (r: Clock)
    requires WellFormed(c.table)
    ensures WellFormed(r.table)
  {
    var now := c.now + 1;
    NotifyFrom(Clock(now, ServicedTable(c.table, now), c.log), DueSet(c.table, now), 0, devices)
  }

  function ClockTicks(c: Clock, n: nat, devices: Devices): (r: Clock)
    requires WellFormed(c.table)
    ensures WellFormed(r.table)
    decreases n
  {
    if n == 0 then c else ClockTicks(ClockTick(c, devices), n - 1, devices)
  }

  // ---------------------------------------------------------------- the countdown scheduler

  /** The scheduler's state: time is `ticksTotal` plus the part of the countdown period
      that has elapsed. */
  datatype State = State(table: Table, countdown: int, period: int, ticksTotal: nat, log: seq<Event>)

  function Now(s: State): int {
    s.ticksTotal + (s.period - s.countdown)
  }

  /** Shortens the countdown in progress when a timer must fire before it ends. */
  function Skewed(s: State, delay: int): State {
    if 0 <= delay < s.countdown then
      s.(period := s.period - (s.countdown - delay), countdown := delay)
    else s
  }

  ghost predicate Shaped(s: State) {
    WellFormed(s.table) && 0 <= s.countdown <= s.period
  }

  function Perform(s: State, op: Op): (r: State)
    requires Shaped(s)
    ensures Shaped(r) && Now(r) == Now(s)
  {
    Skewed(s.(table := Apply(s.table, Now(s), op)), ArmingDelay(s.table, op))
  }

  function PerformAll(s: State, ops: seq<Op>): (r: State)
    requires Shaped(s)
    ensures Shaped(r) && Now(r) == Now(s)
    decreases |ops|
  {
    if ops == [] then s else PerformAll(Perform(s, ops[0]), ops[1..])
  }

  function FireFrom(s: State, due: set<nat>, i: nat, devices: Devices): (r: State)
    requires Shaped(s)
    ensures Shaped(r) && Now(r) == Now(s)
    decreases |s.table.slots| - i
  {
    if i >= |s.table.slots| then s
    else if i in due && s.table.slots[i].funct.Callback? then
      var told := s.(log := s.log + [Fired(Now(s), i, s.table.slots[i].funct)]);
      FireFrom(PerformAll(told, devices(told.log)), due, i + 1, devices)
    else FireFrom(s, due, i + 1, devices)
  }

  /** Stands for the all-ones start value of the search for the earliest deadline: ticks
      are unbounded here, and no deadline reaches it. */
  const NO_DEADLINE: int := -1

  predicate Earlier(deadline: nat, than: int) {
    than == NO_DEADLINE || deadline < than
  }

  /** The earliest deadline among the active slots below `n`. */
  function MinDeadline(t: Table, n: nat): (m: int)
    requires n <= |t.slots|
    ensures m >= NO_DEADLINE
  {
    if n == 0 then NO_DEADLINE
    else
      var m := MinDeadline(t, n - 1);
      if t.slots[n - 1].active && Earlier(t.slots[n - 1].timeToFire, m) then t.slots[n - 1].timeToFire else m
  }

  lemma {:induction false} MinDeadlineIsEarliest(t: Table, n: nat, i: nat)
    requires i < n <= |t.slots| && t.slots[i].active
    ensures 0 <= MinDeadline(t, n) <= t.slots[i].timeToFire
  {
    if i < n - 1 {
      MinDeadlineIsEarliest(t, n - 1, i);
    }
  }

  /** A minimum that was found is the deadline of an active timer. */
  lemma {:induction false} MinDeadlineIsDeadline(t: Table, n: nat)
    requires n <= |t.slots| && MinDeadline(t, n) != NO_DEADLINE
    ensures exists i :: 0 <= i < n && t.slots[i].active && t.slots[i].timeToFire == MinDeadline(t, n)
  {
    if t.slots[n - 1].active && Earlier(t.slots[n - 1].timeToFire, MinDeadline(t, n - 1)) {
      assert t.slots[n - 1].timeToFire == MinDeadline(t, n);
    } else {
      MinDeadlineIsDeadline(t, n - 1);
    }
  }

  /** The countdown has run out: time moves to its end, the due timers are serviced, and the
      next countdown is set from the earliest deadline, cut to 32 bits. */
  function Reloaded(s: State): (r: State)
    requires WellFormed(s.table) && 0 <= s.period
    ensures Shaped(r)
  {
    var now := s.ticksTotal + s.period;
    var table := ServicedTable(s.table, now);
    var next := (MinDeadline(table, table.count) - now) % TWO_TO_THE_32;
    State(table, next, next, now, s.log)
  }

  /** Only then do the callbacks of the timers that were due run. */
  function CountdownEvent(s: State, devices: Devices): (r: State)
    requires WellFormed(s.table) && 0 <= s.period
    ensures Shaped(r)
  {
    FireFrom(Reloaded(s), DueSet(s.table, s.ticksTotal + s.period), 0, devices)
  }

  function Tick1(s: State, devices: Devices): (r: State)
    requires Shaped(s) && s.countdown > 0
    ensures Shaped(r)
  {
    var s' := s.(countdown := s.countdown - 1);
    if s'.countdown == 0 then CountdownEvent(s', devices) else s'
  }

  // ---------------------------------------------------------------- the scheduler's invariant

  /** What holds between any two steps: the countdown is running, ends no later than the
      earliest deadline, and the null timer is armed within 32 bits. */
  ghost predicate Inv(s: State) {
    && Shaped(s)
    && 0 < s.countdown <= s.period < TWO_TO_THE_32
    && (forall i :: 0 <= i < MAX_TIMERS && s.table.slots[i].active ==> SlotInv(s, i))
    && NullTimerInv(s.table.slots[0], s.ticksTotal)
  }

  ghost predicate SlotInv(s: State, i: nat)
    requires WellFormed(s.table) && i < MAX_TIMERS
  {
    && i < s.table.count
    && s.table.slots[i].period >= MIN_TIMER_PERIOD
    && s.ticksTotal + s.period <= s.table.slots[i].timeToFire
  }

  ghost predicate NullTimerInv(t: Timer, ticksTotal: nat) {
    && t.inUse && t.active && t.continuous && t.funct.Callback?
    && t.period == NULL_TIMER_INTERVAL
    && ticksTotal < t.timeToFire <= ticksTotal + NULL_TIMER_INTERVAL
  }

  const INITIAL: State :=
    State(Table([Timer(true, NULL_TIMER_INTERVAL, NULL_TIMER_INTERVAL, true, true, Callback(0))]
                + seq(MAX_TIMERS - 1, _ => UNUSED), 1),
          NULL_TIMER_INTERVAL, NULL_TIMER_INTERVAL, 0, [])

  lemma InvNow(s: State)
    requires Inv(s)
    ensures Now(s) >= 0
  {
  }

  lemma InitialInv()
    ensures Inv(INITIAL)
  {
  }

  lemma ApplyKeepsNullTimer(t: Table, now: nat, op: Op)
    requires WellFormed(t)
    ensures Apply(t, now, op).slots[0] == t.slots[0]
  {
  }

  lemma PerformKeepsInv(s: State, op: Op)
    requires Inv(s)
    ensures Inv(Perform(s, op))
    ensures Perform(s, op).ticksTotal == s.ticksTotal
  {
    ApplyKeepsNullTimer(s.table, Now(s), op);
  }

  lemma PerformAllKeepsInv(s: State, ops: seq<Op>)
    requires Inv(s)
    ensures Inv(PerformAll(s, ops))
    decreases |ops|
  {
    if ops != [] {
      PerformKeepsInv(s, ops[0]);
      PerformAllKeepsInv(Perform(s, ops[0]), ops[1..]);
    }
  }

  lemma FireFromKeepsInv(s: State, due: set<nat>, i: nat, devices: Devices)
    requires Inv(s)
    ensures Inv(FireFrom(s, due, i, devices))
    decreases |s.table.slots| - i
  {
    if i < MAX_TIMERS {
      if i in due && s.table.slots[i].funct.Callback? {
        var told := s.(log := s.log + [Fired(Now(s), i, s.table.slots[i].funct)]);
        assert Inv(told);
        PerformAllKeepsInv(told, devices(told.log));
        FireFromKeepsInv(PerformAll(told, devices(told.log)), due, i + 1, devices);
      } else {
        FireFromKeepsInv(s, due, i + 1, devices);
      }
    }
  }

  /** Servicing moves every deadline that has been reached beyond the present: a one-shot timer
      that was due is inactive, a continuous one is due a period later, and the others are as
      they were. */
  lemma ServicedDeadlines(s: State)
    requires Inv(s.(countdown := s.period))
    ensures var now := s.ticksTotal + s.period;
      var table := ServicedTable(s.table, now);
      && (forall i :: 0 <= i < MAX_TIMERS && Due(s.table.slots[i], now) ==>
           var t := s.table.slots[i];
           if t.continuous then table.slots[i].active && table.slots[i].timeToFire == now + t.period
           else !table.slots[i].active)
      && (forall i :: 0 <= i < MAX_TIMERS && !Due(s.table.slots[i], now) ==> table.slots[i] == s.table.slots[i])
      && (forall i :: 0 <= i < MAX_TIMERS && table.slots[i].active ==>
           i < table.count && table.slots[i].period >= MIN_TIMER_PERIOD && now < table.slots[i].timeToFire)
      && NullTimerInv(table.slots[0], now)
  {
    var now := s.ticksTotal + s.period;
    var table := ServicedTable(s.table, now);
    forall i | 0 <= i < MAX_TIMERS && table.slots[i].active
      ensures i < table.count && table.slots[i].period >= MIN_TIMER_PERIOD && now < table.slots[i].timeToFire
    {
      assert SlotInv(s.(countdown := s.period), i);
    }
    forall i | 0 <= i < MAX_TIMERS && Due(s.table.slots[i], now) ensures i < s.table.count {
      assert SlotInv(s.(countdown := s.period), i);
    }
    assert SlotInv(s.(countdown := s.period), 0);
  }

  /** A table none of whose deadlines has been reached: the earliest lies in the future and
      within 32 bits, because the null timer always has a deadline there, and counting down
      to it keeps the invariant. */
  lemma InvAtReload(table: Table, now: nat, log: seq<Event>)
    requires WellFormed(table) && NullTimerInv(table.slots[0], now)
    requires forall i :: 0 <= i < MAX_TIMERS && table.slots[i].active ==>
      i < table.count && table.slots[i].period >= MIN_TIMER_PERIOD && now < table.slots[i].timeToFire
    ensures var next := MinDeadline(table, table.count) - now;
      0 < next < TWO_TO_THE_32 && Inv(State(table, next, next, now, log))
  {
    MinDeadlineIsEarliest(table, table.count, 0);
    MinDeadlineIsDeadline(table, table.count);
    var next := MinDeadline(table, table.count) - now;
    var r := State(table, next, next, now, log);
    forall i | 0 <= i < MAX_TIMERS && r.table.slots[i].active
      ensures SlotInv(r, i)
    {
      MinDeadlineIsEarliest(table, table.count, i);
    }
  }

  /** The 32-bit cast of the next countdown is nonzero and loses nothing: the countdown ends
      exactly at the earliest deadline. */
  lemma ReloadIsLossless(s: State)
    requires Inv(s.(countdown := s.period))
    ensures Inv(Reloaded(s)) && 0 < Reloaded(s).countdown < TWO_TO_THE_32
    ensures var table := Reloaded(s).table;
      Reloaded(s).ticksTotal + Reloaded(s).countdown == MinDeadline(table, table.count)
  {
    ServicedDeadlines(s);
    var now := s.ticksTotal + s.period;
    InvAtReload(ServicedTable(s.table, now), now, s.log);
  }
}
