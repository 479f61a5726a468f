/** The countdown scheduler against the naive clock: ticking, batches of ticks, whole runs,
    and the firing times of a timer that is left alone. */
module TimerTheorems {
  import opened Timers

  /** What an observer sees of the scheduler: the time, the table and the firings. */
  function Seen(s: State): Clock
    requires Shaped(s)
  {
    Clock(Now(s), s.table, s.log)
  }

  // ---------------------------------------------------------------- callbacks

  lemma PerformAllRefines(s: State, ops: seq<Op>)
    requires Shaped(s)
    ensures Seen(PerformAll(s, ops)) == CallAll(Seen(s), ops)
    decreases |ops|
  {
    if ops != [] {
      PerformAllRefines(Perform(s, ops[0]), ops[1..]);
    }
  }

  lemma FireFromRefines(s: State, due: set<nat>, i: nat, devices: Devices)
    requires Shaped(s)
    ensures Seen(FireFrom(s, due, i, devices)) == NotifyFrom(Seen(s), due, i, devices)
    decreases |s.table.slots| - i
  {
    if i < MAX_TIMERS {
      if i in due && s.table.slots[i].funct.Callback? {
        var told := s.(log := s.log + [Fired(Now(s), i, s.table.slots[i].funct)]);
        PerformAllRefines(told, devices(told.log));
        FireFromRefines(PerformAll(told, devices(told.log)), due, i + 1, devices);
      } else {
        FireFromRefines(s, due, i + 1, devices);
      }
    }
  }

  // ---------------------------------------------------------------- one tick

  /** The event at the end of a countdown keeps the invariant and is what the naive clock
      does on the tick that reaches that moment. */
  lemma EventRefines(s: State, devices: Devices)
    requires Inv(s.(countdown := s.period))
    ensures Inv(CountdownEvent(s, devices))
    ensures Seen(CountdownEvent(s, devices))
         == ClockTick(Clock(s.ticksTotal + s.period - 1, s.table, s.log), devices)
  {
    ReloadIsLossless(s);
    var due := DueSet(s.table, s.ticksTotal + s.period);
    FireFromKeepsInv(Reloaded(s), due, 0, devices);
    FireFromRefines(Reloaded(s), due, 0, devices);
  }

  lemma NobodyDue(c: Clock, devices: Devices)
    requires WellFormed(c.table)
    requires forall i :: 0 <= i < c.table.count ==> !Due(c.table.slots[i], c.now + 1)
    ensures ClockTick(c, devices) == c.(now := c.now + 1)
  {
    assert DueSet(c.table, c.now + 1) == {};
    assert ServicedTable(c.table, c.now + 1).slots == c.table.slots;
    NotifyNobody(c.(now := c.now + 1), 0, devices);
  }

  lemma NotifyNobody(c: Clock, i: nat, devices: Devices)
    requires WellFormed(c.table)
    ensures NotifyFrom(c, {}, i, devices) == c
    decreases |c.table.slots| - i
  {
    if i < MAX_TIMERS {
      NotifyNobody(c, i + 1, devices);
    }
  }

  /** A tick of the scheduler, whether it only decrements the countdown or services an
      event, is a tick of the clock that scans every timer. */
  lemma TickRefines(s: State, devices: Devices)
    requires Inv(s)
    ensures Inv(Tick1(s, devices))
    ensures Seen(Tick1(s, devices)) == ClockTick(Seen(s), devices)
  {
    var s' := s.(countdown := s.countdown - 1);
    if s'.countdown == 0 {
      assert forall i :: 0 <= i < MAX_TIMERS && s.table.slots[i].active ==> SlotInv(s, i);
      assert s'.(countdown := s.period) == s.(countdown := s.period);
      InvAtFullCountdown(s);
      EventRefines(s', devices);
    } else {
      forall i | 0 <= i < s.table.count
        ensures !Due(s.table.slots[i], Now(s) + 1)
      {
        assert s.table.slots[i].active ==> SlotInv(s, i);
      }
      NobodyDue(Seen(s), devices);
      InvAtCountdown(s, s'.countdown);
    }
  }

  lemma InvAtFullCountdown(s: State)
    requires Inv(s)
    ensures Inv(s.(countdown := s.period))
  {
    InvAtCountdown(s, s.period);
  }

  lemma InvAtCountdown(s: State, countdown: int)
    requires Inv(s) && 0 < countdown <= s.period
    ensures Inv(s.(countdown := countdown))
  {
    forall i | 0 <= i < MAX_TIMERS && s.table.slots[i].active
      ensures SlotInv(s.(countdown := countdown), i)
    {
      assert SlotInv(s, i);
    }
  }

  // ---------------------------------------------------------------- batches of ticks

  /** `tickn`: whole countdowns at a time, then a partial one. */
  ghost function TickN(s: State, n: nat, devices: Devices): (r: State)
    requires Inv(s)
    ensures Inv(r)
    decreases n
  {
    if n < s.countdown then
      InvAtCountdown(s, s.countdown - n);
      s.(countdown := s.countdown - n)
    else
      InvAtFullCountdown(s);
      EventRefines(s.(countdown := 0), devices);
      TickN(CountdownEvent(s.(countdown := 0), devices), n - s.countdown, devices)
  }

  ghost function Ticks(s: State, n: nat, devices: Devices): (r: State)
    requires Inv(s)
    ensures Inv(r)
    decreases n
  {
    if n == 0 then s
    else
      TickRefines(s, devices);
      Ticks(Tick1(s, devices), n - 1, devices)
  }

  lemma TicksWithinCountdown(s: State, n: nat, k: nat, devices: Devices)
    requires Inv(s) && n < s.countdown && n <= k
    ensures Inv(s.(countdown := s.countdown - n))
    ensures Ticks(s, k, devices) == Ticks(s.(countdown := s.countdown - n), k - n, devices)
    decreases n
  {
    InvAtCountdown(s, s.countdown - n);
    if n > 0 {
      InvAtCountdown(s, s.countdown - 1);
      TicksWithinCountdown(s.(countdown := s.countdown - 1), n - 1, k - 1, devices);
    }
  }

  /** Advancing by n at once leaves exactly the state, log and countdown included, that n
      single ticks leave. */
  lemma {:induction false} TickNIsTicks(s: State, n: nat, devices: Devices)
    requires Inv(s)
    ensures TickN(s, n, devices) == Ticks(s, n, devices)
    decreases n
  {
    if n < s.countdown {
      TicksWithinCountdown(s, n, n, devices);
    } else {
      var last := s.(countdown := 1);
      TicksWithinCountdown(s, s.countdown - 1, n, devices);
      InvAtFullCountdown(s);
      EventRefines(s.(countdown := 0), devices);
      assert Tick1(last, devices) == CountdownEvent(s.(countdown := 0), devices);
      TickNIsTicks(CountdownEvent(s.(countdown := 0), devices), n - s.countdown, devices);
    }
  }

  lemma {:induction false} TicksRefine(s: State, n: nat, devices: Devices)
    requires Inv(s)
    ensures Seen(Ticks(s, n, devices)) == ClockTicks(Seen(s), n, devices)
    decreases n
  {
    if n > 0 {
      TickRefines(s, devices);
      TicksRefine(Tick1(s, devices), n - 1, devices);
    }
  }

  /** `tickn` is n ticks of the naive clock; in particular time moves by exactly n. */
  lemma TickNRefines(s: State, n: nat, devices: Devices)
    requires Inv(s)
    ensures Seen(TickN(s, n, devices)) == ClockTicks(Seen(s), n, devices)
    ensures Now(TickN(s, n, devices)) == Now(s) + n
  {
    TickNIsTicks(s, n, devices);
    TicksRefine(s, n, devices);
    ClockTicksMoveTime(Seen(s), n, devices);
  }

  lemma CallAllKeepsTime(c: Clock, ops: seq<Op>)
    requires WellFormed(c.table)
    ensures CallAll(c, ops).now == c.now && CallAll(c, ops).log == c.log
    decreases |ops|
  {
    if ops != [] {
      CallAllKeepsTime(Call(c, ops[0]), ops[1..]);
    }
  }

  lemma NotifyKeepsTime(c: Clock, due: set<nat>, i: nat, devices: Devices)
    requires WellFormed(c.table)
    ensures NotifyFrom(c, due, i, devices).now == c.now
    decreases |c.table.slots| - i
  {
    if i < MAX_TIMERS {
      if i in due && c.table.slots[i].funct.Callback? {
        var told := c.(log := c.log + [Fired(c.now, i, c.table.slots[i].funct)]);
        CallAllKeepsTime(told, devices(told.log));
        NotifyKeepsTime(CallAll(told, devices(told.log)), due, i + 1, devices);
      } else {
        NotifyKeepsTime(c, due, i + 1, devices);
      }
    }
  }

  lemma ClockTicksMoveTime(c: Clock, n: nat, devices: Devices)
    requires WellFormed(c.table)
    ensures ClockTicks(c, n, devices).now == c.now + n
    decreases n
  {
    if n > 0 {
      var now := c.now + 1;
      NotifyKeepsTime(Clock(now, ServicedTable(c.table, now), c.log), DueSet(c.table, now), 0, devices);
      ClockTicksMoveTime(ClockTick(c, devices), n - 1, devices);
    }
  }

  // ---------------------------------------------------------------- whole runs

  /** One step of the machine: the processor lets time pass, or calls the framework. */
  datatype Step = Advance(ticks: nat) | Request(op: Op)

  ghost function Run(s: State, steps: seq<Step>, devices: Devices): (r: State)
    requires Inv(s)
    ensures Inv(r)
    decreases |steps|
  {
    if steps == [] then s
    else
      match steps[0]
      case Advance(n) => Run(TickN(s, n, devices), steps[1..], devices)
      case Request(op) =>
        PerformKeepsInv(s, op);
        Run(Perform(s, op), steps[1..], devices)
  }

  function ClockRun(c: Clock, steps: seq<Step>, devices: Devices): (r: Clock)
    requires WellFormed(c.table)
    ensures WellFormed(r.table)
    decreases |steps|
  {
    if steps == [] then c
    else
      match steps[0]
      case Advance(n) => ClockRun(ClockTicks(c, n, devices), steps[1..], devices)
      case Request(op) => ClockRun(Call(c, op), steps[1..], devices)
  }

  function Elapsed(steps: seq<Step>): nat {
    if steps == [] then 0
    else (if steps[0].Advance? then steps[0].ticks else 0) + Elapsed(steps[1..])
  }

  /** Over every run the scheduler and the naive clock show the same time, the same timers
      and the same firings, and only the ticks in the run move time. */
  lemma {:induction false} RunRefines(s: State, steps: seq<Step>, devices: Devices)
    requires Inv(s)
    ensures Seen(Run(s, steps, devices)) == ClockRun(Seen(s), steps, devices)
    ensures Now(Run(s, steps, devices)) == Now(s) + Elapsed(steps)
    decreases |steps|
  {
    if steps != [] {
      match steps[0]
      case Advance(n) =>
        TickNRefines(s, n, devices);
        RunRefines(TickN(s, n, devices), steps[1..], devices);
      case Request(op) =>
        PerformKeepsInv(s, op);
        RunRefines(Perform(s, op), steps[1..], devices);
    }
  }

  /** In every state a run from power-on can reach, the countdown is running and fits in 32
      bits, no active timer's deadline has been passed or even reached, and none comes
      before the countdown ends. */
  lemma NoDeadlineIsMissed(steps: seq<Step>, devices: Devices, i: nat)
    requires i < MAX_TIMERS
    ensures Inv(INITIAL)
    ensures var s := Run(INITIAL, steps, devices);
      && 0 < s.countdown <= s.period < TWO_TO_THE_32
      && (s.table.slots[i].active ==>
           Now(s) < s.ticksTotal + s.period <= s.table.slots[i].timeToFire)
  {
    InitialInv();
    var s := Run(INITIAL, steps, devices);
    assert Inv(s);
    assert s.table.slots[i].active ==> SlotInv(s, i);
  }
}
