/**
 * The page preloader: a progress value that grows by a random amount on
 * every tick until it reaches 100, driving a progress bar and a percentage
 * label.  The random amount (Math.random() * 15) is a parameter here, and
 * the timers that schedule the next tick are reported as an outcome.
 */
module Preloader {
  import opened Numbers

  /** Largest (excluded) increment of one tick. */
  const MaxIncrement: real := 15.0

  /** What a tick shows and schedules. */
  datatype Outcome =
    /** Bar at `barWidth` percent, label `percent`%, next tick after 100 ms. */
    | Continue(barWidth: real, percent: int)
    /** Bar and label at 100%, the page is revealed after 500 ms, no further tick. */
    | Complete

  /** An increment Math.random() * 15 can produce. */
  predicate ValidIncrement(inc: real) {
    0.0 <= inc < MaxIncrement
  }

  /** The progress after one tick: the old progress plus the increment, clamped to 100. */
  function Advance(p: real, inc: real): (q: real)
    ensures q <= 100.0
    ensures q < 100.0 <==> p + inc < 100.0
    ensures q < 100.0 ==> q == p + inc
    ensures 0.0 <= inc && p <= 100.0 ==> p <= q
  {
    var sum := p + inc;
    if sum >= 100.0 then 100.0 else sum
  }

  /** Math.floor of the progress, shown as the percentage label. */
  function Label(p: real): (n: int)
    ensures n as real <= p < n as real + 1.0
    ensures 0.0 <= p < 100.0 ==> 0 <= n < 100
  {
    p.Floor
  }

  /**
   * The progress after the chain of ticks with the given increments,
   * starting from `p`: it never falls below the start nor rises above 100.
   */
  function ProgressAfter(p: real, incs: seq<real>): (q: real)
    ensures p <= 100.0 && (forall i :: 0 <= i < |incs| ==> incs[i] >= 0.0) ==> p <= q <= 100.0
    decreases |incs|
  {
    if incs == [] then p else ProgressAfter(Advance(p, incs[0]), incs[1..])
  }

  function Sum(incs: seq<real>): (s: real)
    ensures (forall i :: 0 <= i < |incs| ==> incs[i] >= 0.0) ==> s >= 0.0
  {
    if incs == [] then 0.0 else incs[0] + Sum(incs[1..])
  }

  /**
   * Over any run of ticks the progress is the starting progress plus the
   * increments, capped at 100: it never decreases, never exceeds 100, and
   * stays at exactly 100 once the increments add up to the remainder.
   */
  lemma {:induction false} ProgressAfterIsCappedSum(p: real, incs: seq<real>)
    requires 0.0 <= p <= 100.0
    requires forall i :: 0 <= i < |incs| ==> ValidIncrement(incs[i])
    ensures ProgressAfter(p, incs) == Min(100.0, p + Sum(incs))
    decreases |incs|
  {
    if incs != [] {
      var q := Advance(p, incs[0]);
      assert forall i :: 0 <= i < |incs[1..]| ==> ValidIncrement(incs[1..][i]);
      ProgressAfterIsCappedSum(q, incs[1..]);
      assert Sum(incs[1..]) >= 0.0;
    }
  }

  class ProgressLoader {
    /** `loadProgress`, in percent. */
    var loadProgress: real

    ghost predicate Valid()
      reads this
    {
      0.0 <= loadProgress <= 100.0
    }

    constructor ()
      ensures Valid() && loadProgress == 0.0
    {
      loadProgress := 0.0;
    }

    /**
     * One `updateProgress` tick with increment `inc`.  At or beyond 100 the
     * progress is set to exactly 100 and the preloader completes; otherwise
     * the bar shows the progress, the label its floor (below 100), and
     * another tick follows.
     */
    method UpdateProgress(inc: real) returns (outcome: Outcome)
      requires Valid() && ValidIncrement(inc)
      modifies this
      ensures Valid()
      ensures loadProgress == Advance(old(loadProgress), inc)
      ensures old(loadProgress) <= loadProgress
      ensures outcome.Complete? <==> loadProgress == 100.0
      ensures outcome.Continue? ==>
        outcome.barWidth == loadProgress && outcome.percent == Label(loadProgress) && 0 <= outcome.percent < 100
    {
      loadProgress := loadProgress + inc;
      if loadProgress >= 100.0 {
        loadProgress := 100.0;
        outcome := Complete;
      } else {
        outcome := Continue(loadProgress, loadProgress.Floor);
      }
    }
  }
}
