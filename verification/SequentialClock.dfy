/** The microsecond clock that never returns the same value twice. */
module SequentialClock {

  const TWO_TO_THE_64: int := 0x1_0000_0000_0000_0000
  type Bit64u = x: int | 0 <= x < TWO_TO_THE_64

  function Larger(a: nat, b: nat): nat {
    if a < b then b else a
  }

  /** The last reading of the real clock and the microseconds handed out beyond it. */
  datatype Sequence = Sequence(last: Bit64u, since: nat) {

    function Next(usec: Bit64u): Sequence {
      if usec == last then Sequence(last, since + 1)
      else
        var diff := (usec - last) % TWO_TO_THE_64;
        Sequence(usec, (if diff >= since then 0 else since - diff) + 1)
    }

    /** The value handed out on the way into this state. */
    function Returned(): nat {
      last + since
    }
  }

  function Results(q: Sequence, readings: seq<Bit64u>): (r: seq<nat>)
    ensures |r| == |readings|
    decreases |readings|
  {
    if readings == [] then []
    else [q.Next(readings[0]).Returned()] + Results(q.Next(readings[0]), readings[1..])
  }

  /** While the real clock does not go back, a call returns one more than the larger of the
      real time and the previous result. */
  lemma NextIsAfterBoth(q: Sequence, usec: Bit64u)
    requires q.last <= usec
    ensures q.Next(usec).Returned() == Larger(q.Returned(), usec) + 1
    ensures q.Next(usec).last == usec
  {
    assert (usec - q.last) % TWO_TO_THE_64 == usec - q.last;
  }

  /** When the real clock goes back, the difference wraps to a large one: the microseconds handed
      out beyond the clock start again at one, unless there are more of them than that. */
  lemma NextWhenClockGoesBack(q: Sequence, usec: Bit64u)
    requires usec < q.last
    ensures var left := 0x1_0000_0000_0000_0000 - (q.last - usec);
      q.Next(usec).Returned() == usec + 1 + if q.since <= left then 0 else q.since - left
  {
  }

  /** Over any series of calls at which the real clock does not go back, the k-th result is
      one more than the larger of the k-th real time and the result before it; hence the
      results strictly increase and are always ahead of the clock. */
  lemma {:induction false} ResultsIncrease(q: Sequence, readings: seq<Bit64u>, k: nat)
    requires k < |readings|
    requires forall j :: 0 <= j < |readings| ==> q.last <= readings[j]
    requires forall i, j :: 0 <= i < j < |readings| ==> readings[i] <= readings[j]
    ensures var r := Results(q, readings);
      && r[k] == Larger(if k == 0 then q.Returned() else r[k - 1], readings[k]) + 1
      && readings[k] < r[k]
      && (forall j :: 0 <= j < k ==> r[j] < r[k])
    decreases |readings|
  {
    NextIsAfterBoth(q, readings[0]);
    var r := Results(q, readings);
    if k > 0 {
      var q' := q.Next(readings[0]);
      ResultsIncrease(q', readings[1..], k - 1);
      assert r[1..] == Results(q', readings[1..]);
      forall j | 0 <= j < k
        ensures r[j] < r[k]
      {
        if j < k - 1 && j > 0 {
          assert r[j] == r[1..][j - 1];
        } else if j == 0 && k > 1 {
          ResultsIncrease(q', readings[1..], 0);
          assert r[1] == r[1..][0];
        }
      }
    }
  }
}
