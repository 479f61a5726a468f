/** Reads of the microsecond clock in between the steps of a run. */
module SequentialReads {
  import opened Timers
  import opened TimerTheorems
  import opened SequentialClock

  /** The machine takes a step, or somebody reads the clock. */
  datatype Action = Read | Do(step: Step)

  /** The ticks at which the clock is read. */
  ghost function ReadTimes(s: State, actions: seq<Action>, devices: Devices): seq<nat>
    requires Inv(s)
    decreases |actions|
  {
    if actions == [] then []
    else
      match actions[0]
      case Read =>
        InvNow(s);
        [Now(s)] + ReadTimes(s, actions[1..], devices)
      case Do(step) => ReadTimes(Run(s, [step], devices), actions[1..], devices)
  }

  ghost predicate Ordered(times: seq<nat>, from: int) {
    (forall i :: 0 <= i < |times| ==> from <= times[i]) && forall i, j :: 0 <= i < j < |times| ==> times[i] <= times[j]
  }

  lemma {:induction false} ReadTimesAreOrdered(s: State, actions: seq<Action>, devices: Devices)
    requires Inv(s)
    ensures Ordered(ReadTimes(s, actions, devices), Now(s))
    decreases |actions|
  {
    hide Inv, Now, Run;
    if actions != [] {
      match actions[0]
      case Read =>
        InvNow(s);
        ReadTimesAreOrdered(s, actions[1..], devices);
      case Do(step) =>
        RunRefines(s, [step], devices);
        ReadTimesAreOrdered(Run(s, [step], devices), actions[1..], devices);
    }
  }

  ghost function Readings(times: seq<nat>, usec: nat -> Bit64u): (r: seq<Bit64u>)
    ensures |r| == |times| && forall i :: 0 <= i < |r| ==> r[i] == usec(times[i])
  {
    seq(|times|, i requires 0 <= i < |times| => usec(times[i]))
  }

  /** Over every run with reads in between, when the real clock is any function of time that
      does not go back: each result is one more than the larger of the real time at the read
      and the result before, so the results strictly increase and are ahead of the clock. */
  lemma ReadsDuringRunIncrease(s: State, actions: seq<Action>, devices: Devices, usec: nat -> Bit64u, q: Sequence, k: nat)
    requires Inv(s) && forall a, b :: a <= b ==> usec(a) <= usec(b)
    requires 0 <= Now(s) && q.last <= usec(Now(s))
    requires k < |ReadTimes(s, actions, devices)|
    ensures var times := ReadTimes(s, actions, devices);
      var r := Results(q, Readings(times, usec));
      && r[k] == Larger(if k == 0 then q.Returned() else r[k - 1], usec(times[k])) + 1
      && usec(times[k]) < r[k]
      && (forall j :: 0 <= j < k ==> r[j] < r[k])
  {
    ReadTimesAreOrdered(s, actions, devices);
    ResultsIncrease(q, Readings(ReadTimes(s, actions, devices), usec), k);
  }
}
