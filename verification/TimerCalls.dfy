/** What each call on the timer framework promises, told by what fires afterwards and by the
    slots that it leaves alone. */
module TimerCalls {
  import opened Timers
  import opened TimerTheorems
  import opened TimerPeriods

  // ---------------------------------------------------------------- timers that must not fire

  /** A slot that does not fire: it is erased, or it holds a registered timer that is not armed. */
  predicate Silent(t: Table, i: nat, erased: bool) {
    i < |t.slots| && if erased then t.slots[i].funct.NoHandler? else Registered(t, i) && !t.slots[i].active
  }

  /** The calls that may end this. */
  predicate Wakes(op: Op, i: nat, erased: bool) {
    if erased then op.Register? else Touches(op, i)
  }

  ghost predicate NeverWaking(devices: Devices, i: nat, erased: bool) {
    forall h, op :: op in devices(h) ==> !Wakes(op, i, erased)
  }

  predicate NoneWaking(steps: seq<Step>, i: nat, erased: bool) {
    forall step :: step in steps && step.Request? ==> !Wakes(step.op, i, erased)
  }

  /** What there is to see of a slot: when it has fired, whether it is silent, and the fields of a
      timer it holds. */
  function Shown(c: Clock, i: nat, erased: bool): (seq<nat>, bool, Timer) {
    (FiringsOf(c.log, i), Silent(c.table, i, erased),
     if erased || i >= |c.table.slots| then UNUSED else c.table.slots[i])
  }

  lemma SilentApply(t: Table, now: nat, op: Op, i: nat, erased: bool)
    requires WellFormed(t) && Silent(t, i, erased) && !Wakes(op, i, erased)
    ensures Silent(Apply(t, now, op), i, erased)
    ensures !erased ==> Apply(t, now, op).slots[i] == t.slots[i]
  {
    if !erased {
      UntouchedApply(t, now, op, i);
    }
  }

  lemma SilentCalls(c: Clock, ops: seq<Op>, i: nat, erased: bool)
    requires WellFormed(c.table) && Silent(c.table, i, erased)
    requires forall op :: op in ops ==> !Wakes(op, i, erased)
    ensures Shown(CallAll(c, ops), i, erased) == Shown(c, i, erased) && CallAll(c, ops).log == c.log
    decreases |ops|
  {
    hide Silent, Wakes, Apply, FiringsOf;
    if ops != [] {
      SilentApply(c.table, c.now, ops[0], i, erased);
      SilentCalls(Call(c, ops[0]), ops[1..], i, erased);
    }
  }

  lemma {:induction false} SilentNotify(c: Clock, due: set<nat>, from: nat, devices: Devices, i: nat, erased: bool)
    requires WellFormed(c.table) && Silent(c.table, i, erased) && (erased || i !in due)
    requires NeverWaking(devices, i, erased)
    ensures Shown(NotifyFrom(c, due, from, devices), i, erased) == Shown(c, i, erased)
    decreases |c.table.slots| - from
  {
    hide Wakes, FiringsOf, CallAll, Registered;
    if from < |c.table.slots| {
      if from in due && c.table.slots[from].funct.Callback? {
        var e := Fired(c.now, from, c.table.slots[from].funct);
        var told := c.(log := c.log + [e]);
        FiringsOfSnoc(c.log, e, i);
        assert FiringsOf(told.log, i) == FiringsOf(c.log, i);
        SilentCalls(told, devices(told.log), i, erased);
        SilentNotify(CallAll(told, devices(told.log)), due, from + 1, devices, i, erased);
      } else {
        SilentNotify(c, due, from + 1, devices, i, erased);
      }
    }
  }

  lemma SilentTick(c: Clock, devices: Devices, i: nat, erased: bool)
    requires WellFormed(c.table) && Silent(c.table, i, erased) && NeverWaking(devices, i, erased)
    ensures Shown(ClockTick(c, devices), i, erased) == Shown(c, i, erased)
  {
    hide NotifyFrom, FiringsOf, NeverWaking;
    var now := c.now + 1;
    SilentNotify(Clock(now, ServicedTable(c.table, now), c.log), DueSet(c.table, now), 0, devices, i, erased);
  }

  lemma {:induction false} SilentTicks(c: Clock, n: nat, devices: Devices, i: nat, erased: bool)
    requires WellFormed(c.table) && Silent(c.table, i, erased) && NeverWaking(devices, i, erased)
    ensures Shown(ClockTicks(c, n, devices), i, erased) == Shown(c, i, erased)
    decreases n
  {
    hide ClockTick, FiringsOf, NeverWaking, Silent;
    if n > 0 {
      SilentTick(c, devices, i, erased);
      SilentTicks(ClockTick(c, devices), n - 1, devices, i, erased);
    }
  }

  lemma {:induction false} SilentRun(c: Clock, steps: seq<Step>, devices: Devices, i: nat, erased: bool)
    requires WellFormed(c.table) && Silent(c.table, i, erased) && NeverWaking(devices, i, erased)
    requires NoneWaking(steps, i, erased)
    ensures Shown(ClockRun(c, steps, devices), i, erased) == Shown(c, i, erased)
    decreases |steps|
  {
    hide ClockTicks, Apply, FiringsOf, NeverWaking, Silent, Wakes;
    if steps != [] {
      match steps[0]
      case Advance(n) =>
        SilentTicks(c, n, devices, i, erased);
        SilentRun(ClockTicks(c, n, devices), steps[1..], devices, i, erased);
      case Request(op) =>
        SilentApply(c.table, c.now, op, i, erased);
        SilentRun(Call(c, op), steps[1..], devices, i, erased);
    }
  }

  lemma SilentTimer(s: State, i: nat, erased: bool, steps: seq<Step>, devices: Devices)
    requires Inv(s) && Silent(s.table, i, erased) && NeverWaking(devices, i, erased) && NoneWaking(steps, i, erased)
    ensures FiringsOf(Run(s, steps, devices).log, i) == FiringsOf(s.log, i)
    ensures !erased ==> i < |s.table.slots| && Run(s, steps, devices).table.slots[i] == s.table.slots[i]
  {
    hide ClockRun, Run, FiringsOf, NeverWaking, NoneWaking;
    RunRefines(s, steps, devices);
    SilentRun(Seen(s), steps, devices, i, erased);
  }

  /** Every slot but `i` is as it was. */
  predicate OthersAlike(t: Table, r: Table, i: nat) {
    |r.slots| == |t.slots| && forall j :: 0 <= j < |t.slots| && j != i ==> r.slots[j] == t.slots[j]
  }

  /** Deactivating a timer leaves the bound, the countdown, every other slot and the timer's
      other fields alone, and the timer never fires again in any run that does not arm it. */
  lemma DeactivatedTimerIsSilent(s: State, i: nat, steps: seq<Step>, devices: Devices)
    requires Inv(s) && 0 < i && Registered(s.table, i)
    requires LeftAlone(devices, i)
    requires forall step :: step in steps && step.Request? ==> !Touches(step.op, i)
    ensures var r := Perform(s, Deactivate(i));
      && Inv(r) && r == s.(table := r.table) && r.table.count == s.table.count && OthersAlike(s.table, r.table, i)
      && !r.table.slots[i].active && r.table.slots[i].(active := s.table.slots[i].active) == s.table.slots[i]
      && FiringsOf(Run(r, steps, devices).log, i) == FiringsOf(s.log, i)
      && Run(r, steps, devices).table.slots[i] == r.table.slots[i]
  {
    hide FiringsOf, Run;
    var r := Perform(s, Deactivate(i));
    PerformKeepsInv(s, Deactivate(i));
    LeavingIsNotWaking(steps, devices, i);
    SilentTimer(r, i, false, steps, devices);
  }

  lemma LeavingIsNotWaking(steps: seq<Step>, devices: Devices, i: nat)
    ensures LeftAlone(devices, i) ==> NeverWaking(devices, i, false)
    ensures (forall step :: step in steps && step.Request? ==> !Touches(step.op, i)) ==> NoneWaking(steps, i, false)
  {
    hide Touches;
  }

  /** Unregistering is refused while the timer is active. Otherwise the slot is free, every other
      slot and the countdown are alone, the bound comes down past the last slot only, and nothing
      fires from the slot, whatever calls are made, until something is registered. */
  lemma UnregisteredTimerIsSilent(s: State, i: nat, steps: seq<Step>, devices: Devices)
    requires Inv(s) && 0 < i && Registered(s.table, i)
    requires forall h, op :: op in devices(h) ==> !op.Register?
    requires forall step :: step in steps && step.Request? ==> !step.op.Register?
    ensures var r := Perform(s, Unregister(i));
      if s.table.slots[i].active then r == s
      else
        && Inv(r) && r == s.(table := r.table) && OthersAlike(s.table, r.table, i) && !r.table.slots[i].inUse
        && r.table.count == s.table.count - (if i + 1 == s.table.count then 1 else 0)
        && FiringsOf(Run(r, steps, devices).log, i) == FiringsOf(s.log, i)
  {
    hide FiringsOf, Run;
    var r := Perform(s, Unregister(i));
    PerformKeepsInv(s, Unregister(i));
    if !s.table.slots[i].active {
      assert NeverWaking(devices, i, true) && NoneWaking(steps, i, true);
      SilentTimer(r, i, true, steps, devices);
    }
  }

  /** What a registration stores. */
  function Newcomer(now: nat, f: Handler, ticks: nat, repeats: bool, armed: bool): Timer {
    var p := if ticks == 0 then 1 else ticks;
    Timer(true, p, now + p, armed, repeats, f)
  }

  /** With room below the limit, a registration takes the least slot from 1 on that is not in
      use, changes no other, and raises the bound only if there is none below it. */
  lemma RegisteringTakesLeastSlot(s: State, i: nat, f: Handler, ticks: nat, repeats: bool, armed: bool)
    requires Inv(s) && s.table.count < 64 && 0 < i <= s.table.count
    requires i < s.table.count ==> !s.table.slots[i].inUse
    requires forall j :: 0 < j < i ==> s.table.slots[j].inUse
    ensures var r := Perform(s, Register(f, ticks, repeats, armed));
      && Inv(r) && OthersAlike(s.table, r.table, i) && r.table.slots[i] == Newcomer(Now(s), f, ticks, repeats, armed)
      && r.table.count == Max(s.table.count, i + 1) && Registered(r.table, i)
      && r.log == s.log && Now(r) == Now(s) && r.ticksTotal == s.ticksTotal
  {
    PerformKeepsInv(s, Register(f, ticks, repeats, armed));
    assert FreeSlot(s.table, 1) == i;
  }

  function Max(a: nat, b: nat): nat {
    if a < b then b else a
  }

  /** A slot given up is the next to be taken when all below it are in use, even at the limit of
      64 if it was the last. */
  lemma UnregisteredSlotIsTakenNext(s: State, i: nat, f: Handler, ticks: nat, repeats: bool, armed: bool)
    requires Inv(s) && 0 < i && Registered(s.table, i) && !s.table.slots[i].active
    requires forall j :: 0 < j < i ==> s.table.slots[j].inUse
    requires s.table.count < 64 || i == 63
    ensures var r := Perform(Perform(s, Unregister(i)), Register(f, ticks, repeats, armed));
      && OthersAlike(s.table, r.table, i) && r.table.slots[i] == Newcomer(Now(s), f, ticks, repeats, armed)
      && r.table.count == s.table.count
  {
    var u := Perform(s, Unregister(i));
    PerformKeepsInv(s, Unregister(i));
    assert u.table.count == s.table.count - (if i + 1 == s.table.count then 1 else 0);
    assert OthersAlike(s.table, u.table, i);
    hide Perform;
    RegisteringTakesLeastSlot(u, i, f, ticks, repeats, armed);
  }

  /** A timer registered without being armed does not fire until it is. */
  lemma UnarmedTimerIsSilent(s: State, f: Handler, ticks: nat, repeats: bool, steps: seq<Step>, devices: Devices)
    requires Inv(s) && s.table.count < MAX_TIMERS
    requires var i := FreeSlot(s.table, 1);
      LeftAlone(devices, i) && forall step :: step in steps && step.Request? ==> !Touches(step.op, i)
    ensures var i := FreeSlot(s.table, 1);
      var r := Perform(s, Register(f, ticks, repeats, false));
      && Inv(r) && r.countdown == s.countdown
      && FiringsOf(Run(r, steps, devices).log, i) == FiringsOf(s.log, i)
      && Run(r, steps, devices).table.slots[i] == Newcomer(Now(s), f, ticks, repeats, false)
  {
    hide FiringsOf, Run, FreeSlot, LeftAlone;
    var i := FreeSlot(s.table, 1);
    var r := Perform(s, Register(f, ticks, repeats, false));
    InvIsShaped(s);
    RegisteringTakesLeastSlot(s, i, f, ticks, repeats, false);
    LeavingIsNotWaking(steps, devices, i);
    SilentTimer(r, i, false, steps, devices);
  }

  lemma InvIsShaped(s: State)
    requires Inv(s)
    ensures Shaped(s) && Now(s) >= 0
  {
  }

  // ---------------------------------------------------------------- timers that must fire

  /** Armed again without a period, a timer fires on the period it was given last. */
  lemma RearmedTimerFiresOnTime(s: State, i: nat, repeats: bool, steps: seq<Step>, devices: Devices)
    requires Inv(s) && 0 < i && Registered(s.table, i) && s.table.slots[i].funct.Callback?
    requires LeftAlone(devices, i)
    requires forall step :: step in steps && step.Request? ==> !Touches(step.op, i)
    ensures var p := s.table.slots[i].period;
      var armed := Perform(s, Rearm(i, repeats));
      && Inv(armed)
      && FiringsOf(Run(armed, steps, devices).log, i)
         == FiringsOf(s.log, i) + ExpectedFirings(Now(s), if p == 0 then 1 else p, repeats, Elapsed(steps))
  {
    hide Run, FiringsOf, ExpectedFirings, LeftAlone, OnSchedule;
    var p := AtLeastMinimum(s.table.slots[i].period);
    ArmingSchedules(s, i, Rearm(i, repeats), p, repeats);
    ScheduledTimerFiresOnTime(Perform(s, Rearm(i, repeats)), i, Now(s), p, repeats, FiringsOf(s.log, i), steps, devices);
  }

  /** Arming changes no other slot. */
  lemma ArmingSparesOthers(s: State, i: nat, ticks: nat, repeats: bool)
    requires Inv(s)
    ensures OthersAlike(s.table, Perform(s, Activate(i, ticks, repeats)).table, i)
    ensures OthersAlike(s.table, Perform(s, Rearm(i, repeats)).table, i)
    ensures Perform(s, Activate(i, ticks, repeats)).table.count == Perform(s, Rearm(i, repeats)).table.count == s.table.count
  {
  }

  /** From power-on the null timer fires at the multiples of 0xffffffff ticks, whatever is called. */
  lemma NullTimerFires(steps: seq<Step>, devices: Devices)
    ensures Inv(INITIAL)
    ensures FiringsOf(Run(INITIAL, steps, devices).log, 0) == Multiples(0, 0xffff_ffff, Elapsed(steps) / 0xffff_ffff)
  {
    hide Run, FiringsOf, Multiples;
    InitialInv();
    NullTimerStarts();
    ScheduledTimerFiresOnTime(INITIAL, 0, 0, NULL_TIMER_INTERVAL, true, [], steps, devices);
  }

  lemma NullTimerStarts()
    ensures Inv(INITIAL) && Now(INITIAL) == 0
    ensures OnSchedule(Seen(INITIAL), 0, 0, NULL_TIMER_INTERVAL, true, [])
  {
    InitialInv();
    assert FiringsOf([], 0) == [];
  }

  /** start + p, start + 2p, and so on, k of them. */
  lemma {:induction false} MultiplesAre(start: nat, p: nat, k: nat)
    ensures Multiples(start, p, k) == seq(k, j requires 0 <= j < k => start + (j + 1) * p)
  {
    if k > 0 {
      MultiplesAre(start, p, k - 1);
    }
  }

  // ---------------------------------------------------------------- what a tick records

  /** The table after the calls that the firings from the `base`-th on have asked for, each on
      seeing the firings up to its own. */
  function Replayed(t: Table, now: nat, base: nat, log: seq<Event>, devices: Devices): (r: Table)
    requires WellFormed(t)
    ensures WellFormed(r)
    decreases |log|
  {
    if |log| <= base then t
    else CallAll(Clock(now, Replayed(t, now, base, log[..|log| - 1], devices), log), devices(log)).table
  }

  lemma {:induction false} ReplayedOnward(t: Table, now: nat, base: nat, log: seq<Event>, devices: Devices)
    requires WellFormed(t) && base < |log|
    ensures Replayed(t, now, base, log, devices)
         == Replayed(Replayed(t, now, base, log[..base + 1], devices), now, base + 1, log, devices)
    decreases |log|
  {
    if |log| == base + 1 {
      assert log[..base + 1] == log;
    } else {
      var before := log[..|log| - 1];
      assert before[..base + 1] == log[..base + 1];
      ReplayedOnward(t, now, base, before, devices);
    }
  }

  /** Entry k of the log was made now, for a slot that was due, on the handler that the calls
      asked for so far have left there. */
  ghost predicate Explained(t: Table, now: nat, base: nat, log: seq<Event>, due: set<nat>, devices: Devices, k: nat)
    requires WellFormed(t) && k < |log|
  {
    && log[k].time == now && log[k].timer in due && log[k].timer < MAX_TIMERS && log[k].handler.Callback?
    && log[k].handler == Replayed(t, now, base, log[..k], devices).slots[log[k].timer].funct
  }

  /** The log has grown by firings in slot order, each explained, and the table is what their
      calls make of it. */
  ghost predicate Recorded(c: Clock, r: Clock, due: set<nat>, from: nat, devices: Devices)
    requires WellFormed(c.table)
  {
    && c.log <= r.log && r.now == c.now
    && r.table == Replayed(c.table, c.now, |c.log|, r.log, devices)
    && (forall k :: |c.log| <= k < |r.log| ==> Explained(c.table, c.now, |c.log|, r.log, due, devices, k))
    && (forall k :: |c.log| <= k < |r.log| ==> from <= r.log[k].timer)
    && (forall j, k :: |c.log| <= j < k < |r.log| ==> r.log[j].timer < r.log[k].timer)
  }

  lemma FirstIsRecorded(c: Clock, mid: Clock, r: Clock, due: set<nat>, from: nat, devices: Devices)
    requires WellFormed(c.table) && from in due && from < MAX_TIMERS && c.table.slots[from].funct.Callback?
    requires var told := c.(log := c.log + [Fired(c.now, from, c.table.slots[from].funct)]);
      mid == CallAll(told, devices(told.log))
    requires WellFormed(mid.table) && mid.now == c.now && mid.log == c.log + [Fired(c.now, from, c.table.slots[from].funct)]
    requires Recorded(mid, r, due, from + 1, devices)
    ensures Recorded(c, r, due, from, devices)
  {
    hide CallAll;
    var base := |c.log|;
    assert r.log[..base + 1] == mid.log && mid.log[..base] == c.log && r.log[..base] == c.log;
    assert r.log[base] == mid.log[base];
    assert Replayed(c.table, c.now, base, c.log, devices) == c.table;
    assert Replayed(c.table, c.now, base, mid.log, devices) == mid.table;
    ReplayedOnward(c.table, c.now, base, r.log, devices);
    forall k | base < k < |r.log|
      ensures Explained(c.table, c.now, base, r.log, due, devices, k)
    {
      assert Explained(mid.table, c.now, base + 1, r.log, due, devices, k);
      assert r.log[..k][..base + 1] == mid.log;
      ReplayedOnward(c.table, c.now, base, r.log[..k], devices);
    }
  }

  lemma {:induction false} NotifyIsRecorded(c: Clock, due: set<nat>, from: nat, devices: Devices)
    requires WellFormed(c.table)
    ensures Recorded(c, NotifyFrom(c, due, from, devices), due, from, devices)
    decreases |c.table.slots| - from
  {
    hide Explained, CallAll;
    if from < |c.table.slots| {
      if from in due && c.table.slots[from].funct.Callback? {
        var told := c.(log := c.log + [Fired(c.now, from, c.table.slots[from].funct)]);
        var mid := CallAll(told, devices(told.log));
        CallAllKeepsTime(told, devices(told.log));
        NotifyIsRecorded(mid, due, from + 1, devices);
        FirstIsRecorded(c, mid, NotifyFrom(mid, due, from + 1, devices), due, from, devices);
      } else {
        NotifyIsRecorded(c, due, from + 1, devices);
      }
    }
  }

  /** A tick can be read off its log: the firings are of timers that were due when it came, in
      slot order, each on the handler in force at its turn; and the table is the serviced table
      with the calls of those callbacks made one after the other. */
  lemma TickIsRecorded(c: Clock, devices: Devices)
    requires WellFormed(c.table)
    ensures var now := c.now + 1;
      var served := Clock(now, ServicedTable(c.table, now), c.log);
      var due := set i: nat | i < c.table.count && c.table.slots[i].active && c.table.slots[i].timeToFire == now;
      Recorded(served, ClockTick(c, devices), due, 0, devices)
  {
    hide NotifyFrom, Recorded;
    var now := c.now + 1;
    NotifyIsRecorded(Clock(now, ServicedTable(c.table, now), c.log), DueSet(c.table, now), 0, devices);
    assert DueSet(c.table, now) == set i: nat | i < c.table.count && c.table.slots[i].active && c.table.slots[i].timeToFire == now;
  }

  /** Where the firings of the log pass over slot `i`: those before `m` are of lower slots, and
      those from `m` on of higher ones. */
  predicate PassesOver(log: seq<Event>, base: nat, m: nat, i: nat)
    requires base <= m <= |log|
  {
    (m > base ==> log[m - 1].timer < i) && (m < |log| ==> i < log[m].timer)
  }

  lemma {:induction false} PassedSlotHasNoHandler(c: Clock, due: set<nat>, from: nat, devices: Devices, m: nat, i: nat)
    requires WellFormed(c.table) && i in due && from <= i < MAX_TIMERS
    requires var r := NotifyFrom(c, due, from, devices);
      |c.log| <= m <= |r.log| && PassesOver(r.log, |c.log|, m, i)
    ensures Replayed(c.table, c.now, |c.log|, NotifyFrom(c, due, from, devices).log[..m], devices).slots[i].funct.NoHandler?
    decreases |c.table.slots| - from
  {
    hide Explained, CallAll;
    var r := NotifyFrom(c, due, from, devices);
    NotifyIsRecorded(c, due, from, devices);
    if from in due && c.table.slots[from].funct.Callback? {
      var told := c.(log := c.log + [Fired(c.now, from, c.table.slots[from].funct)]);
      var mid := CallAll(told, devices(told.log));
      CallAllKeepsTime(told, devices(told.log));
      NotifyIsRecorded(mid, due, from + 1, devices);
      assert r.log[|c.log|] == mid.log[|c.log|];
      PassedSlotHasNoHandler(mid, due, from + 1, devices, m, i);
      FirstIsReplayed(c, mid, r.log[..m], from, devices);
    } else {
      NotifyIsRecorded(c, due, from + 1, devices);
      if from < i {
        PassedSlotHasNoHandler(c, due, from + 1, devices, m, i);
      }
    }
  }

  lemma FirstIsReplayed(c: Clock, mid: Clock, log: seq<Event>, from: nat, devices: Devices)
    requires WellFormed(c.table) && from < MAX_TIMERS
    requires var told := c.(log := c.log + [Fired(c.now, from, c.table.slots[from].funct)]);
      mid == CallAll(told, devices(told.log)) && mid.log == told.log
    requires WellFormed(mid.table) && mid.log <= log
    ensures Replayed(c.table, c.now, |c.log|, log, devices) == Replayed(mid.table, c.now, |c.log| + 1, log, devices)
  {
    hide CallAll;
    assert log[..|c.log| + 1] == mid.log && mid.log[..|c.log|] == c.log;
    ReplayedOnward(c.table, c.now, |c.log|, log, devices);
  }

  /** And no timer that was due is left out: where the firings of a tick pass over one, there is
      no handler in its slot at its turn. */
  lemma TickLeavesNobodyOut(c: Clock, devices: Devices, m: nat, i: nat)
    requires WellFormed(c.table) && i < c.table.count
    requires c.table.slots[i].active && c.table.slots[i].timeToFire == c.now + 1
    requires |c.log| <= m <= |ClockTick(c, devices).log| && PassesOver(ClockTick(c, devices).log, |c.log|, m, i)
    ensures Replayed(ServicedTable(c.table, c.now + 1), c.now + 1, |c.log|, ClockTick(c, devices).log[..m], devices)
              .slots[i].funct.NoHandler?
  {
    hide NotifyFrom, PassesOver, Replayed;
    var now := c.now + 1;
    PassedSlotHasNoHandler(Clock(now, ServicedTable(c.table, now), c.log), DueSet(c.table, now), 0, devices, m, i);
  }
}
