/** When a timer that nobody touches fires. */
module TimerPeriods {
  import opened Timers
  import opened TimerTheorems

  /** The times at which timer `i` has fired. */
  function FiringsOf(log: seq<Event>, i: nat): seq<nat> {
    if log == [] then []
    else
      var last := log[|log| - 1];
      FiringsOf(log[..|log| - 1], i) + (if last.timer == i then [last.time] else [])
  }

  /** start + p, start + 2p, ..., start + kp. */
  function Multiples(start: nat, p: nat, k: nat): seq<nat> {
    if k == 0 then [] else Multiples(start, p, k - 1) + [start + k * p]
  }

  /** When a timer armed at `start` with period `p` has fired by `start + d`. */
  function ExpectedFirings(start: nat, p: nat, repeats: bool, d: nat): seq<nat>
    requires p > 0
  {
    if repeats then Multiples(start, p, d / p)
    else if d >= p then [start + p]
    else []
  }

  /** How long after arming the deadline lies that is in force `d` ticks after arming. */
  function NextMultiple(p: nat, repeats: bool, d: nat): nat
    requires p > 0
  {
    if repeats then (d / p + 1) * p else p
  }

  /** No call reaches the null timer. */
  predicate Touches(op: Op, i: nat) {
    i != 0 && !op.Register? && op.timer == i
  }

  ghost predicate LeftAlone(devices: Devices, i: nat) {
    forall h, op :: op in devices(h) ==> !Touches(op, i)
  }

  predicate Registered(t: Table, i: nat) {
    i < t.count && i < |t.slots| && t.slots[i].inUse
  }

  lemma UntouchedApply(t: Table, now: nat, op: Op, i: nat)
    requires WellFormed(t) && Registered(t, i) && !Touches(op, i)
    ensures Registered(Apply(t, now, op), i) && Apply(t, now, op).slots[i] == t.slots[i]
  {
  }

  lemma UntouchedCalls(c: Clock, ops: seq<Op>, i: nat)
    requires WellFormed(c.table) && Registered(c.table, i)
    requires forall op :: op in ops ==> !Touches(op, i)
    ensures var r := CallAll(c, ops);
      && r.now == c.now && r.log == c.log
      && Registered(r.table, i) && r.table.slots[i] == c.table.slots[i]
    decreases |ops|
  {
    if ops != [] {
      UntouchedApply(c.table, c.now, ops[0], i);
      UntouchedCalls(Call(c, ops[0]), ops[1..], i);
    }
  }

  lemma FiringsOfSnoc(log: seq<Event>, e: Event, i: nat)
    ensures FiringsOf(log + [e], i) == FiringsOf(log, i) + (if e.timer == i then [e.time] else [])
  {
    assert (log + [e])[..|log|] == log;
  }

  /** Running the callbacks from slot `from` up fires timer `i` once if it is due and still
      to come, and otherwise not at all. */
  lemma {:induction false} UntouchedNotify(c: Clock, due: set<nat>, from: nat, devices: Devices, i: nat)
    requires WellFormed(c.table) && Registered(c.table, i) && c.table.slots[i].funct.Callback?
    requires LeftAlone(devices, i)
    ensures var r := NotifyFrom(c, due, from, devices);
      && r.now == c.now
      && Registered(r.table, i) && r.table.slots[i] == c.table.slots[i]
      && FiringsOf(r.log, i) == FiringsOf(c.log, i) + (if i in due && from <= i then [c.now] else [])
    decreases |c.table.slots| - from
  {
    hide Touches, FiringsOf, CallAll;
    if from < |c.table.slots| {
      if from in due && c.table.slots[from].funct.Callback? {
        var e := Fired(c.now, from, c.table.slots[from].funct);
        var told := c.(log := c.log + [e]);
        FiringsOfSnoc(c.log, e, i);
        UntouchedCalls(told, devices(told.log), i);
        UntouchedNotify(CallAll(told, devices(told.log)), due, from + 1, devices, i);
      } else {
        UntouchedNotify(c, due, from + 1, devices, i);
      }
    }
  }

  /** Slot `i` is where a timer armed at `start` with period `p` should be, and it has fired
      when it should have since. */
  ghost predicate OnSchedule(c: Clock, i: nat, start: nat, p: nat, repeats: bool, before: seq<nat>)
    requires WellFormed(c.table) && p > 0
  {
    && Registered(c.table, i) && start <= c.now
    && var t := c.table.slots[i]; var d := c.now - start;
    && t.funct.Callback? && t.continuous == repeats && t.period == p
    && t.active == (repeats || d < p)
    && t.timeToFire == start + NextMultiple(p, repeats, d)
    && FiringsOf(c.log, i) == before + ExpectedFirings(start, p, repeats, d)
  }

  lemma DivisionStep(d: int, p: int)
    requires d >= 0 && p > 0
    ensures (d + 1 == (d / p + 1) * p && (d + 1) / p == d / p + 1)
         || (d + 1 < (d / p + 1) * p && (d + 1) / p == d / p)
  {
    var q := d / p;
    Distribute(q, p);
    assert d == q * p + d % p;
    if d + 1 == (q + 1) * p {
      Distribute(q + 1, p);
      QuotientIs(d + 1, p, q + 1);
    } else {
      QuotientIs(d + 1, p, q);
    }
  }

  lemma Distribute(k: int, p: int)
    ensures (k + 1) * p == k * p + p
  {
  }

  lemma MulMonotone(a: int, b: int, p: int)
    requires a <= b && p >= 0
    ensures a * p <= b * p
  {
  }

  lemma QuotientIs(d: int, p: int, q: int)
    requires d >= 0 && p > 0 && q * p <= d < (q + 1) * p
    ensures d / p == q
  {
    var x := d / p;
    Distribute(x, p);
    if x < q {
      MulMonotone(x + 1, q, p);
    } else if x > q {
      MulMonotone(q + 1, x, p);
    }
  }

  /** One more tick adds a firing exactly when it reaches the deadline in force. */
  lemma ExpectedStep(start: nat, p: nat, repeats: bool, d: nat)
    requires p > 0
    ensures var hit := d + 1 == NextMultiple(p, repeats, d);
      && ExpectedFirings(start, p, repeats, d + 1)
         == ExpectedFirings(start, p, repeats, d) + (if hit then [start + d + 1] else [])
      && NextMultiple(p, repeats, d + 1) == NextMultiple(p, repeats, d) + (if hit && repeats then p else 0)
  {
    DivisionStep(d, p);
    if repeats && d + 1 == (d / p + 1) * p {
      assert Multiples(start, p, (d + 1) / p) == Multiples(start, p, d / p) + [start + (d / p + 1) * p];
      Distribute(d / p + 1, p);
    }
  }

  lemma TickStaysOnSchedule(c: Clock, devices: Devices, i: nat, start: nat, p: nat, repeats: bool, before: seq<nat>)
    requires WellFormed(c.table) && p > 0 && LeftAlone(devices, i)
    requires OnSchedule(c, i, start, p, repeats, before)
    ensures OnSchedule(ClockTick(c, devices), i, start, p, repeats, before)
  {
    hide NotifyFrom, FiringsOf, ExpectedFirings, LeftAlone;
    var now := c.now + 1;
    var d := c.now - start;
    UntouchedNotify(Clock(now, ServicedTable(c.table, now), c.log), DueSet(c.table, now), 0, devices, i);
    ExpectedStep(start, p, repeats, d);
    assert i in DueSet(c.table, now) <==> c.table.slots[i].active && d + 1 == NextMultiple(p, repeats, d);
  }

  lemma {:induction false} TicksStayOnSchedule(c: Clock, n: nat, devices: Devices, i: nat,
                                               start: nat, p: nat, repeats: bool, before: seq<nat>)
    requires WellFormed(c.table) && p > 0 && LeftAlone(devices, i)
    requires OnSchedule(c, i, start, p, repeats, before)
    ensures OnSchedule(ClockTicks(c, n, devices), i, start, p, repeats, before)
    decreases n
  {
    if n > 0 {
      TickStaysOnSchedule(c, devices, i, start, p, repeats, before);
      TicksStayOnSchedule(ClockTick(c, devices), n - 1, devices, i, start, p, repeats, before);
    }
  }

  lemma {:induction false} RunStaysOnSchedule(c: Clock, steps: seq<Step>, devices: Devices, i: nat,
                                              start: nat, p: nat, repeats: bool, before: seq<nat>)
    requires WellFormed(c.table) && p > 0 && LeftAlone(devices, i)
    requires forall step :: step in steps && step.Request? ==> !Touches(step.op, i)
    requires OnSchedule(c, i, start, p, repeats, before)
    ensures OnSchedule(ClockRun(c, steps, devices), i, start, p, repeats, before)
    decreases |steps|
  {
    if steps != [] {
      match steps[0]
      case Advance(n) =>
        TicksStayOnSchedule(c, n, devices, i, start, p, repeats, before);
        RunStaysOnSchedule(ClockTicks(c, n, devices), steps[1..], devices, i, start, p, repeats, before);
      case Request(op) =>
        UntouchedApply(c.table, c.now, op, i);
        RunStaysOnSchedule(Call(c, op), steps[1..], devices, i, start, p, repeats, before);
    }
  }

  /** Once a timer is on schedule, only the elapsed time decides when it has fired. */
  lemma ScheduledTimerFiresOnTime(armed: State, i: nat, start: nat, p: nat, repeats: bool, before: seq<nat>,
                                  steps: seq<Step>, devices: Devices)
    requires Inv(armed) && p > 0 && LeftAlone(devices, i)
    requires forall step :: step in steps && step.Request? ==> !Touches(step.op, i)
    requires OnSchedule(Seen(armed), i, start, p, repeats, before) && Now(armed) == start
    ensures FiringsOf(Run(armed, steps, devices).log, i) == before + ExpectedFirings(start, p, repeats, Elapsed(steps))
  {
    hide ClockRun, Run, ExpectedFirings, LeftAlone, NextMultiple, Registered, FiringsOf;
    RunRefines(armed, steps, devices);
    RunStaysOnSchedule(Seen(armed), steps, devices, i, start, p, repeats, before);
  }

  lemma ArmingSchedules(s: State, i: nat, op: Op, p: nat, repeats: bool)
    requires Inv(s) && p > 0 && i < MAX_TIMERS
    requires var t := Apply(s.table, Now(s), op);
      && Registered(t, i) && t.slots[i].funct.Callback? && t.slots[i].continuous == repeats && t.slots[i].active
      && t.slots[i].period == p && t.slots[i].timeToFire == Now(s) + p
    ensures Inv(Perform(s, op)) && Now(Perform(s, op)) == Now(s)
    ensures OnSchedule(Seen(Perform(s, op)), i, Now(s), p, repeats, FiringsOf(s.log, i))
  {
    hide Apply, FiringsOf, Registered, ArmingDelay;
    PerformKeepsInv(s, op);
    hide Inv;
    assert 0 / p == 0;
  }

  /** Arm a registered timer for `ticks` in any reachable state and then let the machine
      run, with every other timer doing as it likes. A repeating timer fires at exactly
      t+p, t+2p, ... and so floor(d/p) times in d ticks; a one-shot timer fires at exactly
      t+p and never again. */
  lemma ArmedTimerFiresOnTime(s: State, i: nat, ticks: nat, repeats: bool, steps: seq<Step>, devices: Devices)
    requires Inv(s) && 0 < i && Registered(s.table, i) && s.table.slots[i].funct.Callback?
    requires LeftAlone(devices, i)
    requires forall step :: step in steps && step.Request? ==> !Touches(step.op, i)
    ensures var armed := Perform(s, Activate(i, ticks, repeats));
      && Inv(armed)
      && FiringsOf(Run(armed, steps, devices).log, i)
         == FiringsOf(s.log, i) + ExpectedFirings(Now(s), if ticks == 0 then 1 else ticks, repeats, Elapsed(steps))
  {
    hide Run, FiringsOf, ExpectedFirings, LeftAlone, OnSchedule;
    var p := AtLeastMinimum(ticks);
    ArmingSchedules(s, i, Activate(i, ticks, repeats), p, repeats);
    ScheduledTimerFiresOnTime(Perform(s, Activate(i, ticks, repeats)), i, Now(s), p, repeats,
                              FiringsOf(s.log, i), steps, devices);
  }

  /** The same for a timer that is registered armed: it gets the first free slot. */
  lemma RegisteredTimerFiresOnTime(s: State, f: Handler, ticks: nat, repeats: bool, steps: seq<Step>, devices: Devices)
    requires Inv(s) && s.table.count < MAX_TIMERS && f.Callback?
    requires LeftAlone(devices, FreeSlot(s.table, 1))
    requires forall step :: step in steps && step.Request? ==> !Touches(step.op, FreeSlot(s.table, 1))
    ensures var i := FreeSlot(s.table, 1);
      var armed := Perform(s, Register(f, ticks, repeats, true));
      && Inv(armed)
      && FiringsOf(Run(armed, steps, devices).log, i)
         == FiringsOf(s.log, i) + ExpectedFirings(Now(s), if ticks == 0 then 1 else ticks, repeats, Elapsed(steps))
  {
    hide Run, FiringsOf, ExpectedFirings, LeftAlone, OnSchedule, FreeSlot;
    var i, p := FreeSlot(s.table, 1), AtLeastMinimum(ticks);
    var op := Register(f, ticks, repeats, true);
    ArmingSchedules(s, i, op, p, repeats);
    ScheduledTimerFiresOnTime(Perform(s, op), i, Now(s), p, repeats, FiringsOf(s.log, i), steps, devices);
  }
}
