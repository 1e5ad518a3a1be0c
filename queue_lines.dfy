/**
 * The queue side of the queueing MDP: `multi_queue` keeps, per job type, the
 * age (in ticks) of the first job in line, with -1 for an empty line, and
 * derives the event rates of the uniformised chain from it.
 *
 * Rates are `real`; only sums and products of them are formed. The geometric
 * draw `H` of `sample_next_fil_after_completion` is taken as an input.
 */
module QueueLines {

  /** `std::vector::resize(n, fill)`: keep the first `n` entries, pad with `fill`. */
  function Resized(s: seq<int>, n: nat, fill: int): (r: seq<int>)
    ensures |r| == n
    ensures forall i :: 0 <= i < n && i < |s| ==> r[i] == s[i]
    ensures forall i :: |s| <= i < n ==> r[i] == fill
  {
    if n <= |s| then s[..n] else s + seq(n - |s|, _ => fill)
  }

  /** Number of job types with a job in line (entry >= 0). */
  function WaitingCount(fil: seq<int>): nat {
    if |fil| == 0 then 0
    else WaitingCount(fil[..|fil| - 1]) + (if fil[|fil| - 1] >= 0 then 1 else 0)
  }

  /** Number of job types with an empty line (entry < 0). */
  function EmptyCount(fil: seq<int>): nat {
    if |fil| == 0 then 0
    else EmptyCount(fil[..|fil| - 1]) + (if fil[|fil| - 1] < 0 then 1 else 0)
  }

  /** Every line is either waiting or empty. */
  lemma {:induction false} WaitingPlusEmpty(fil: seq<int>)
    ensures WaitingCount(fil) + EmptyCount(fil) == |fil|
  {
    if |fil| > 0 {
      WaitingPlusEmpty(fil[..|fil| - 1]);
    }
  }

  /** Σ of `rates[n]` over the first `m` job types whose line is empty. */
  function EmptyArrivalSum(fil: seq<int>, rates: seq<real>, m: nat): real
    requires m <= |fil| && m <= |rates|
  {
    if m == 0 then 0.0
    else EmptyArrivalSum(fil, rates, m - 1) + (if fil[m - 1] < 0 then rates[m - 1] else 0.0)
  }

  /** Σ of the first `m` rates. */
  function Sum(rates: seq<real>, m: nat): real
    requires m <= |rates|
  {
    if m == 0 then 0.0 else Sum(rates, m - 1) + rates[m - 1]
  }

  predicate NonNegative(rates: seq<real>) {
    forall n :: 0 <= n < |rates| ==> rates[n] >= 0.0
  }

  /** With non-negative rates, the arrival rate of the empty lines never exceeds the sum of all rates. */
  lemma {:induction false} ArrivalRateAtMostMax(fil: seq<int>, rates: seq<real>, m: nat)
    requires m <= |fil| && m <= |rates| && NonNegative(rates)
    ensures EmptyArrivalSum(fil, rates, m) <= Sum(rates, |rates|)
    decreases |rates| - m
  {
    if m < |rates| && m < |fil| {
      ArrivalRateAtMostMax(fil, rates, m + 1);
    } else {
      EmptyAtMostSum(fil, rates, m);
      SumMonotone(rates, m, |rates|);
    }
  }

  lemma {:induction false} EmptyAtMostSum(fil: seq<int>, rates: seq<real>, m: nat)
    requires m <= |fil| && m <= |rates| && NonNegative(rates)
    ensures EmptyArrivalSum(fil, rates, m) <= Sum(rates, m)
  {
    if m > 0 {
      EmptyAtMostSum(fil, rates, m - 1);
    }
  }

  lemma {:induction false} SumMonotone(rates: seq<real>, m: nat, m': nat)
    requires m <= m' <= |rates| && NonNegative(rates)
    ensures Sum(rates, m) <= Sum(rates, m')
    decreases m' - m
  {
    if m < m' {
      SumMonotone(rates, m, m' - 1);
    }
  }

  /** `get_max_tick_rate`: every one of the `n_jobs` lines ticking. */
  function GetMaxTickRate(nJobs: int, tickRate: real): (r: real)
    ensures nJobs >= 0 && tickRate >= 0.0 ==> r >= 0.0
    ensures nJobs == 0 || tickRate == 0.0 ==> r == 0.0
  {
    (nJobs as real) * tickRate
  }

  /** With a non-negative tick rate and one line per job type, the tick rate never exceeds its maximum. */
  lemma TickRateAtMostMax(fil: seq<int>, tickRate: real)
    requires tickRate >= 0.0
    ensures tickRate * (WaitingCount(fil) as real) <= GetMaxTickRate(|fil|, tickRate)
  {
    WaitingPlusEmpty(fil);
    ScaleCount(WaitingCount(fil), |fil|, tickRate);
  }

  lemma ScaleCount(c: nat, n: nat, t: real)
    requires c <= n && t >= 0.0
    ensures t * (c as real) <= (n as real) * t
  {
    var x, y := c as real, n as real;
    assert x <= y;
  }

  /**
   * `sample_next_fil_after_completion`: the first-in-line age after the
   * current first job leaves, given the number `H` of ticks before the next
   * arrival (the geometric draw). 0 means the line is empty afterwards.
   */
  function SampleNextFilAfterCompletion(i: int, lambda: real, gamma: real, H: nat): (r: int)
    ensures 0 <= r
    ensures i <= 0 ==> r == 0
    ensures i > 0 ==> r <= i
  {
    if i <= 0 then 0
    else
      var denom := lambda + gamma;
      if denom <= 0.0 then 0
      else
        var q := gamma / denom;
        var p := 1.0 - q;
        if p <= 0.0 then 0
        else if q <= 0.0 then i
        else if H >= i then 0
        else i - H
  }

  /**
   * The guards on `q` and `p` in terms of the rates: no events or no arrivals
   * empty the line, no ticks keep the full age, otherwise the draw decides.
   */
  lemma NextFilCases(i: int, lambda: real, gamma: real, H: nat)
    requires i > 0
    ensures SampleNextFilAfterCompletion(i, lambda, gamma, H) ==
      if lambda + gamma <= 0.0 || lambda <= 0.0 then 0
      else if gamma <= 0.0 then i
      else if H >= i then 0
      else i - H
  {
    var denom := lambda + gamma;
    if denom > 0.0 {
      var q := gamma / denom;
      assert q * denom == gamma;
      if lambda <= 0.0 {
        assert q >= 1.0;
      } else {
        assert q < 1.0;
        if gamma <= 0.0 {
          assert q <= 0.0;
        } else {
          assert q > 0.0;
        }
      }
    }
  }

  /** `multi_queue`: first-in-line ages and the cached tick and arrival rates. */
  class MultiQueue {
    /** `FIL_waiting`: age of the first job in line per job type, -1 if the line is empty. */
    var filWaiting: seq<int>
    var totalTickRate: real
    var totalArrivalRate: real

    constructor()
      ensures filWaiting == [] && totalTickRate == 0.0 && totalArrivalRate == 0.0
    {
      filWaiting := [];
      totalTickRate := 0.0;
      totalArrivalRate := 0.0;
    }

    /** `initialize`: resize to `nJobs` lines (new lines empty) and reset both rates. */
    method Initialize(nJobs: nat)
      modifies this
      ensures filWaiting == Resized(old(filWaiting), nJobs, -1)
      ensures totalTickRate == 0.0 && totalArrivalRate == 0.0
    {
      filWaiting := Resized(filWaiting, nJobs, -1);
      totalTickRate := 0.0;
      totalArrivalRate := 0.0;
    }

    /** `compute_total_tick_rate`: one tick rate per line with a job in it. */
    method ComputeTotalTickRate(tickRate: real) returns (total: real)
      ensures total == tickRate * (WaitingCount(filWaiting) as real)
    {
      total := 0.0;
      for n := 0 to |filWaiting|
        invariant total == tickRate * (WaitingCount(filWaiting[..n]) as real)
      {
        assert filWaiting[..n + 1][..n] == filWaiting[..n];
        if filWaiting[n] >= 0 {
          total := total + tickRate;
        }
      }
      assert filWaiting[..|filWaiting|] == filWaiting;
    }

    /** `get_total_arrival_rate`: arrival rates of the job types whose line is empty. */
    method GetTotalArrivalRate(rates: seq<real>) returns (total: real)
      requires |filWaiting| <= |rates|
      ensures total == EmptyArrivalSum(filWaiting, rates, |filWaiting|)
    {
      total := 0.0;
      for n := 0 to |filWaiting|
        invariant total == EmptyArrivalSum(filWaiting, rates, n)
      {
        if filWaiting[n] < 0 {
          total := total + rates[n];
        }
      }
    }

    /** `get_max_arrival_rate`: the sum of all arrival rates. */
    method GetMaxArrivalRate(rates: seq<real>) returns (total: real)
      ensures total == Sum(rates, |rates|)
    {
      total := 0.0;
      for n := 0 to |rates|
        invariant total == Sum(rates, n)
      {
        total := total + rates[n];
      }
    }

    /** `update_total_arrival_rate`: cache the current arrival rate. */
    method UpdateTotalArrivalRate(rates: seq<real>)
      requires |filWaiting| <= |rates|
      modifies this
      ensures filWaiting == old(filWaiting) && totalTickRate == old(totalTickRate)
      ensures totalArrivalRate == EmptyArrivalSum(filWaiting, rates, |filWaiting|)
    {
      totalArrivalRate := GetTotalArrivalRate(rates);
    }

    /** `update_total_tick_rate`: cache the current tick rate. */
    method UpdateTotalTickRate(tickRate: real)
      modifies this
      ensures filWaiting == old(filWaiting) && totalArrivalRate == old(totalArrivalRate)
      ensures totalTickRate == tickRate * (WaitingCount(filWaiting) as real)
    {
      totalTickRate := ComputeTotalTickRate(tickRate);
    }
  }
}
