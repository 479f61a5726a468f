/** The PC system's timer services as the object that updates its fields in place, each
    method proved against the scheduler's specification. */
module PcSystem {
  import opened Timers
  import opened TimerTheorems
  import opened SequentialClock

  type Bit32u = x: int | 0 <= x < TWO_TO_THE_32

  class PcSystem {
    const devices: Devices
    const timer: array<Timer>
    var numTimers: nat
    var triggeredTimer: nat
    var currCountdown: Bit32u
    var currCountdownPeriod: Bit32u
    var ticksTotal: nat
    var lastTimeUsec: Bit64u
    var usecSinceLast: nat
    var log: seq<Event>

    ghost predicate Allocated()
      reads this
    {
      timer.Length == MAX_TIMERS && 1 <= numTimers <= MAX_TIMERS
    }

    ghost function TableView(): Table
      reads this, timer
    {
      Table(timer[..], numTimers)
    }

    ghost function View(): State
      reads this, timer
    {
      State(TableView(), currCountdown, currCountdownPeriod, ticksTotal, log)
    }

    /** The object invariant: the scheduler's invariant on the fields. */
    ghost predicate Valid()
      reads this, timer
    {
      Allocated() && Inv(View())
    }

    constructor (devices: Devices)
      ensures fresh(timer) && Allocated()
      ensures numTimers == 1 && ticksTotal == 0 && log == [] && this.devices == devices
      ensures timer[0] == Timer(true, NULL_TIMER_INTERVAL, 0, true, true, Callback(0))
      ensures forall i :: 1 <= i < MAX_TIMERS ==> timer[i] == UNUSED
    {
      this.devices := devices;
      timer := new Timer[MAX_TIMERS](_ => UNUSED);
      numTimers, triggeredTimer := 1, 0;
      currCountdown, currCountdownPeriod, ticksTotal := 0, 0, 0;
      lastTimeUsec, usecSinceLast := 0, 0;
      log := [];
      new;
      timer[0] := Timer(true, NULL_TIMER_INTERVAL, 0, true, true, Callback(0));
    }

    /** After `initialize` the machine is in the state every run starts from. */
    method Initialize()
      requires Allocated() && numTimers == 1 && log == []
      requires timer[0] == Timer(true, NULL_TIMER_INTERVAL, 0, true, true, Callback(0))
      requires forall i :: 1 <= i < MAX_TIMERS ==> timer[i] == UNUSED
      modifies this, timer
      ensures Valid() && View() == INITIAL
      ensures lastTimeUsec == 0 && usecSinceLast == 0 && triggeredTimer == 0
    {
      ticksTotal := 0;
      timer[0] := timer[0].(timeToFire := NULL_TIMER_INTERVAL);
      currCountdown := NULL_TIMER_INTERVAL;
      currCountdownPeriod := NULL_TIMER_INTERVAL;
      lastTimeUsec := 0;
      usecSinceLast := 0;
      triggeredTimer := 0;
      assert timer[..] == INITIAL.table.slots;
      InitialInv();
    }

    method TimeTicks() returns (now: nat)
      requires Valid()
      ensures now == Now(View())
    {
      now := ticksTotal + (currCountdownPeriod - currCountdown);
    }

    /** Shortens the countdown when `ticks` comes before its end. */
    method SkewCountdown(ticks: nat)
      requires Allocated() && currCountdown <= currCountdownPeriod
      modifies this`currCountdown, this`currCountdownPeriod
      ensures View() == Skewed(old(View()), ticks)
    {
      if ticks < currCountdown {
        currCountdownPeriod := currCountdownPeriod - (currCountdown - ticks);
        currCountdown := ticks;
      }
    }

    /** The search for a free slot below the bound. */
    method FindSlot() returns (i: nat)
      requires Valid()
      ensures i == FreeSlot(TableView(), 1)
    {
      i := 1;
      while i < numTimers
        invariant 1 <= i <= numTimers
        invariant FreeSlot(TableView(), 1) == FreeSlot(TableView(), i)
      {
        if !timer[i].inUse {
          break;
        }
        i := i + 1;
      }
    }

    method StoreTimer(i: nat, t: Timer)
      requires Allocated() && i < MAX_TIMERS
      modifies timer
      ensures TableView() == old(TableView()).(slots := old(TableView()).slots[i := t])
    {
      timer[i] := t;
    }

    method RegisterTimerTicks(funct: Handler, ticks: nat, repeats: bool, active: bool) returns (id: int)
      requires Valid()
      modifies this`numTimers, this`currCountdown, this`currCountdownPeriod, timer
      ensures Valid() && View() == Perform(old(View()), Register(funct, ticks, repeats, active))
      ensures id == if old(numTimers) >= MAX_TIMERS then -1 else FreeSlot(old(TableView()), 1)
    {
      hide Perform, FreeSlot, Inv;
      ghost var was := View();
      PerformKeepsInv(was, Register(funct, ticks, repeats, active));
      RegisterIs(was, funct, ticks, repeats, active);
      var period := if ticks < MIN_TIMER_PERIOD then MIN_TIMER_PERIOD else ticks;
      var i := FindSlot();
      if numTimers >= MAX_TIMERS {
        return -1;
      }
      StoreTimer(i, Timer(true, period, ticksTotal + (currCountdownPeriod - currCountdown) + period,
                          active, repeats, funct));
      if active {
        SkewCountdown(period);
      }
      if i == numTimers {
        numTimers := numTimers + 1;
      }
      return i;
    }

    method ActivateTimerTicks(i: nat, ticks: nat, repeats: bool)
      requires Valid() && 0 < i < numTimers
      modifies this`currCountdown, this`currCountdownPeriod, timer
      ensures Valid() && View() == Perform(old(View()), Activate(i, ticks, repeats))
    {
      PerformKeepsInv(View(), Activate(i, ticks, repeats));
      var period := if ticks < MIN_TIMER_PERIOD then MIN_TIMER_PERIOD else ticks;
      timer[i] := timer[i].(
        period := period,
        timeToFire := ticksTotal + (currCountdownPeriod - currCountdown) + period,
        active := true,
        continuous := repeats);
      SkewCountdown(period);
    }

    /** `activate_timer`: with zero microseconds the stored period is used again; otherwise
        `converted`, the ticks they are converted to, becomes the period. */
    method ActivateTimer(i: nat, useconds: nat, converted: nat, repeats: bool)
      requires Valid() && 0 < i < numTimers
      modifies this`currCountdown, this`currCountdownPeriod, timer
      ensures Valid()
      ensures View() == Perform(old(View()), if useconds == 0 then Rearm(i, repeats) else Activate(i, converted, repeats))
    {
      PeriodIsOverwritten(View(), i, if converted < MIN_TIMER_PERIOD then MIN_TIMER_PERIOD else converted, converted, repeats);
      hide Perform, Inv;
      var ticks := timer[i].period;
      if useconds != 0 {
        ticks := if converted < MIN_TIMER_PERIOD then MIN_TIMER_PERIOD else converted;
        StorePeriod(i, ticks);
      }
      ActivateTimerTicks(i, ticks, repeats);
    }

    method StorePeriod(i: nat, ticks: nat)
      requires Valid() && 0 < i < numTimers && ticks >= MIN_TIMER_PERIOD
      modifies timer
      ensures Valid() && View() == WithPeriod(old(View()), i, ticks)
    {
      timer[i] := timer[i].(period := ticks);
      assert forall j :: 0 <= j < MAX_TIMERS && timer[j].active ==> old(SlotInv(View(), j));
    }

    method DeactivateTimer(i: nat)
      requires Valid() && 0 < i < numTimers
      modifies timer
      ensures Valid() && View() == Perform(old(View()), Deactivate(i))
      ensures !timer[i].active && timer[..] == old(timer[..])[i := old(timer[i]).(active := false)]
    {
      PerformKeepsInv(View(), Deactivate(i));
      timer[i] := timer[i].(active := false);
    }

    method UnregisterTimer(i: nat) returns (ok: bool)
      requires Valid() && 0 < i < numTimers && timer[i].inUse
      modifies this`numTimers, timer
      ensures Valid() && View() == Perform(old(View()), Unregister(i))
      ensures ok == !old(timer[i].active)
      ensures ok ==> !timer[i].inUse && timer[i].funct.NoHandler? && numTimers == old(numTimers) - (if i + 1 == old(numTimers) then 1 else 0)
      ensures !ok ==> View() == old(View())
      ensures forall j :: 0 <= j < MAX_TIMERS && j != i ==> timer[j] == old(timer[j])
    {
      PerformKeepsInv(View(), Unregister(i));
      if timer[i].active {
        return false;
      }
      timer[i] := Timer(false, MAX_BIT64S, MAX_BIT64S, timer[i].active, false, NoHandler);
      if i == numTimers - 1 {
        numTimers := numTimers - 1;
      }
      return true;
    }

    /** Carries out one call a callback makes; a call the source panics on does nothing. */
    method Dispatch(op: Op)
      requires Valid()
      modifies this`numTimers, this`currCountdown, this`currCountdownPeriod, timer
      ensures Valid() && View() == Perform(old(View()), op)
    {
      PerformKeepsInv(View(), op);
      match op
      case Activate(i, ticks, repeats) =>
        if 0 < i < numTimers { ActivateTimerTicks(i, ticks, repeats); }
      case Rearm(i, repeats) =>
        if 0 < i < numTimers { ActivateTimer(i, 0, 0, repeats); }
      case Deactivate(i) =>
        if 0 < i < numTimers { DeactivateTimer(i); }
      case Register(f, ticks, repeats, active) =>
        var _ := RegisterTimerTicks(f, ticks, repeats, active);
      case Unregister(i) =>
        if 0 < i < numTimers && timer[i].inUse { var _ := UnregisterTimer(i); }
    }

    method RunCallback(ops: seq<Op>)
      requires Valid()
      modifies this`numTimers, this`currCountdown, this`currCountdownPeriod, timer
      ensures Valid() && View() == PerformAll(old(View()), ops)
    {
      var k := 0;
      while k < |ops|
        invariant k <= |ops| && Valid()
        invariant PerformAll(View(), ops[k..]) == PerformAll(old(View()), ops)
      {
        assert ops[k..][0] == ops[k] && ops[k..][1..] == ops[k + 1..];
        Dispatch(ops[k]);
        k := k + 1;
      }
    }

    /** One slot of the scan: a one-shot timer that fires is deactivated, a continuous one
        moves on by its period. */
    method ServiceSlot(i: nat) returns (fires: bool)
      requires i < timer.Length
      modifies timer
      ensures fires == Due(old(timer[i]), ticksTotal)
      ensures timer[..] == old(timer[..])[i := Serviced(old(timer[i]), ticksTotal)]
    {
      fires := timer[i].active && ticksTotal == timer[i].timeToFire;
      if fires {
        if !timer[i].continuous {
          timer[i] := timer[i].(active := false);
        } else {
          timer[i] := timer[i].(timeToFire := timer[i].timeToFire + timer[i].period);
        }
      }
    }

    /** The scan of `countdownEvent`: services the due timers below the bound, notes which
        they are and between which slots they lie, and finds the earliest deadline. */
    method ServiceDue(triggered: array<bool>) returns (first: nat, last: nat, minTimeToFire: int)
      requires Allocated() && triggered != timer as object && triggered.Length == MAX_TIMERS
      modifies timer, triggered
      ensures TableView() == ServicedTable(old(TableView()), ticksTotal)
      ensures forall j :: 0 <= j < numTimers ==> triggered[j] == (j in DueSet(old(TableView()), ticksTotal))
      ensures forall j :: 0 <= j < numTimers && triggered[j] ==> first <= j <= last
      ensures first <= numTimers && last < numTimers
      ensures minTimeToFire == MinDeadline(TableView(), numTimers)
    {
      ghost var was, now := timer[..], ticksTotal;
      ghost var serviced := ServicedTable(TableView(), now);
      first, last := numTimers, 0;
      minTimeToFire := NO_DEADLINE;
      var i := 0;
      while i < numTimers
        invariant 0 <= i <= numTimers
        invariant forall j :: 0 <= j < i ==> timer[j] == Serviced(was[j], now)
        invariant forall j :: i <= j < MAX_TIMERS ==> timer[j] == was[j]
        invariant forall j :: 0 <= j < i ==> triggered[j] == Due(was[j], now)
        invariant forall j :: 0 <= j < i && triggered[j] ==> first <= j <= last
        invariant first <= numTimers && last < numTimers && last <= i
        invariant minTimeToFire == MinDeadline(serviced, i)
      {
        var fires := ServiceSlot(i);
        triggered[i] := fires;
        assert serviced.slots[i] == timer[i];
        if fires {
          if i < first { first := i; }
          last := i;
        }
        if timer[i].active && Earlier(timer[i].timeToFire, minTimeToFire) {
          minTimeToFire := timer[i].timeToFire;
        }
        i := i + 1;
      }
      assert timer[..] == serviced.slots;
    }

    method InvokeCallback(i: nat)
      requires Valid() && i < MAX_TIMERS
      modifies this`numTimers, this`triggeredTimer, this`currCountdown, this`currCountdownPeriod,
               this`log, timer
      ensures Valid() && triggeredTimer == 0
      ensures var was := old(View());
        var told := was.(log := was.log + [Fired(Now(was), i, was.table.slots[i].funct)]);
        View() == PerformAll(told, devices(told.log))
    {
      hide PerformAll, Inv;
      ghost var was := View();
      InvNow(was);
      InvIgnoresLog(was, was.log + [Fired(Now(was), i, was.table.slots[i].funct)]);
      triggeredTimer := i;
      log := log + [Fired(ticksTotal + (currCountdownPeriod - currCountdown), i, timer[i].funct)];
      assert View() == was.(log := log);
      RunCallback(devices(log));
      triggeredTimer := 0;
    }

    /** The callback loop of `countdownEvent`: it reads the flags noted by the scan, while
        the callbacks change the table and the countdown. */
    method RunTriggered(triggered: array<bool>, first: nat, last: nat, ghost due: set<nat>)
      requires Valid() && triggered != timer as object && last < triggered.Length == MAX_TIMERS
      requires first <= MAX_TIMERS
      requires forall j :: first <= j <= last ==> triggered[j] == (j in due)
      requires forall j :: j in due ==> first <= j <= last
      modifies this`numTimers, this`triggeredTimer, this`currCountdown, this`currCountdownPeriod,
               this`log, timer
      ensures Valid() && View() == FireFrom(old(View()), due, 0, devices)
    {
      NoneDueBetween(View(), due, 0, first, devices);
      var i := first;
      while i <= last
        invariant first <= i && (i > last + 1 ==> i == first)
        invariant Valid()
        invariant FireFrom(View(), due, i, devices) == FireFrom(old(View()), due, 0, devices)
      {
        if triggered[i] && timer[i].funct.Callback? {
          InvokeCallback(i);
        }
        i := i + 1;
      }
      NoneDueBetween(View(), due, i, MAX_TIMERS, devices);
    }

    method StartCountdown(ticks: Bit32u)
      modifies this`currCountdown, this`currCountdownPeriod
      ensures View() == old(View()).(countdown := ticks, period := ticks)
    {
      currCountdownPeriod := ticks;
      currCountdown := ticks;
    }

    /** The countdown has run out: time moves to its end, the scan notes who is due, and the
        next countdown starts, all before the first callback. */
    method Reload() returns (triggered: array<bool>, first: nat, last: nat)
      requires Allocated()
      modifies this`currCountdown, this`currCountdownPeriod, this`ticksTotal, timer
      ensures View() == Reloaded(old(View()))
      ensures fresh(triggered) && triggered.Length == MAX_TIMERS
      ensures first <= numTimers && last < numTimers
      ensures var due := DueSet(old(TableView()), ticksTotal);
        && (forall j :: 0 <= j < numTimers ==> triggered[j] == (j in due))
        && (forall j :: j in due ==> first <= j <= last)
    {
      ticksTotal := ticksTotal + currCountdownPeriod;
      triggered := new bool[MAX_TIMERS];
      var minTimeToFire;
      first, last, minTimeToFire := ServiceDue(triggered);
      StartCountdown((minTimeToFire - ticksTotal) % TWO_TO_THE_32);
    }

    method CountdownEvent()
      requires Allocated() && currCountdown == 0
      requires Inv(View().(countdown := currCountdownPeriod))
      modifies this`numTimers, this`triggeredTimer, this`currCountdown, this`currCountdownPeriod,
               this`ticksTotal, this`log, timer
      ensures Valid() && View() == Timers.CountdownEvent(old(View()), devices)
    {
      ReloadIsLossless(View());
      ghost var due := DueSet(TableView(), ticksTotal + currCountdownPeriod);
      var triggered, first, last := Reload();
      RunTriggered(triggered, first, last, due);
    }

    method Tick1()
      requires Valid()
      modifies this`numTimers, this`triggeredTimer, this`currCountdown, this`currCountdownPeriod,
               this`ticksTotal, this`log, timer
      ensures Valid() && View() == Timers.Tick1(old(View()), devices)
      ensures Now(View()) == old(Now(View())) + 1
      ensures Seen(View()) == ClockTick(old(Seen(View())), devices)
    {
      TickRefines(View(), devices);
      ClockTicksMoveTime(Seen(View()), 1, devices);
      assert ClockTicks(Seen(View()), 1, devices) == ClockTick(Seen(View()), devices);
      InvAtFullCountdown(View());
      currCountdown := currCountdown - 1;
      if currCountdown == 0 {
        CountdownEvent();
      }
    }

    method Tickn(n: Bit32u)
      requires Valid()
      modifies this`numTimers, this`triggeredTimer, this`currCountdown, this`currCountdownPeriod,
               this`ticksTotal, this`log, timer
      ensures Valid() && View() == TickN(old(View()), n, devices)
      ensures Now(View()) == old(Now(View())) + n
      ensures Seen(View()) == ClockTicks(old(Seen(View())), n, devices)
    {
      TickNRefines(View(), n, devices);
      var left := n;
      while left >= currCountdown
        invariant Valid() && 0 <= left
        invariant TickN(View(), left, devices) == TickN(old(View()), n, devices)
        decreases left
      {
        InvAtFullCountdown(View());
        left := left - currCountdown;
        currCountdown := 0;
        CountdownEvent();
      }
      InvAtCountdown(View(), currCountdown - left);
      currCountdown := currCountdown - left;
    }

    /** Microseconds that never repeat; `usec` is what `time_usec` reads. */
    method TimeUsecSequential(usec: Bit64u) returns (r: nat)
      modifies this`lastTimeUsec, this`usecSinceLast
      ensures Sequence(lastTimeUsec, usecSinceLast) == old(Sequence(lastTimeUsec, usecSinceLast)).Next(usec)
      ensures r == lastTimeUsec + usecSinceLast
      ensures old(lastTimeUsec) <= usec ==> r == Larger(old(lastTimeUsec + usecSinceLast), usec) + 1
    {
      if usec != lastTimeUsec {
        var diffUsec := (usec - lastTimeUsec) % TWO_TO_THE_64;
        lastTimeUsec := usec;
        if diffUsec >= usecSinceLast {
          usecSinceLast := 0;
        } else {
          usecSinceLast := usecSinceLast - diffUsec;
        }
      }
      usecSinceLast := usecSinceLast + 1;
      r := usec + usecSinceLast;
    }
  }

  /** What a registration makes of the state. */
  lemma RegisterIs(s: State, f: Handler, ticks: nat, repeats: bool, armed: bool)
    requires Shaped(s)
    ensures s.table.count >= MAX_TIMERS ==> Perform(s, Register(f, ticks, repeats, armed)) == s
    ensures s.table.count < MAX_TIMERS ==>
      var i, p := FreeSlot(s.table, 1), AtLeastMinimum(ticks);
      var slots := s.table.slots[i := Timer(true, p, Now(s) + p, armed, repeats, f)];
      Perform(s, Register(f, ticks, repeats, armed))
        == (if armed then Skewed(s, p) else s).(table := Table(slots, if i == s.table.count then i + 1 else s.table.count))
  {
    hide FreeSlot;
  }

  lemma InvIgnoresLog(s: State, log: seq<Event>)
    requires Inv(s)
    ensures Inv(s.(log := log))
  {
    assert forall i :: 0 <= i < MAX_TIMERS && s.table.slots[i].active ==> SlotInv(s, i);
  }

  function WithPeriod(s: State, i: nat, ticks: nat): State
    requires i < |s.table.slots|
  {
    s.(table := s.table.(slots := s.table.slots[i := s.table.slots[i].(period := ticks)]))
  }

  /** Storing the period first makes no difference to arming the timer with it. */
  lemma PeriodIsOverwritten(s: State, i: nat, ticks: nat, converted: nat, repeats: bool)
    requires Shaped(s) && 0 < i < s.table.count && ticks == AtLeastMinimum(converted)
    ensures Shaped(WithPeriod(s, i, ticks))
    ensures Perform(WithPeriod(s, i, ticks), Activate(i, ticks, repeats)) == Perform(s, Activate(i, converted, repeats))
    ensures Perform(s, Activate(i, s.table.slots[i].period, repeats)) == Perform(s, Rearm(i, repeats))
  {
  }

  lemma {:induction false} NoneDueBetween(s: State, due: set<nat>, from: nat, to: nat, devices: Devices)
    requires Shaped(s) && from <= to <= MAX_TIMERS
    requires forall j :: from <= j < to ==> j !in due
    ensures FireFrom(s, due, from, devices) == FireFrom(s, due, to, devices)
    ensures to == MAX_TIMERS ==> FireFrom(s, due, from, devices) == s
    decreases |s.table.slots| - from
  {
    if from < to {
      NoneDueBetween(s, due, from + 1, to, devices);
    }
  }
}
