/**
 * The animated statistics counter: starting from zero, every animation
 * frame adds target / (2000 / 16) to the count and shows its floor, until
 * the count reaches the target, which is then shown exactly.  The chain of
 * animation frames is run here to completion and the shown values are
 * returned in order.
 */
module StatsCounter {

  /** Length of the count-up in milliseconds. */
  const Duration: real := 2000.0
  /** Assumed time between frames in milliseconds (about 60 frames per second). */
  const FrameInterval: real := 16.0

  /** Amount added per frame: the target spread over 2000 / 16 = 125 frames. */
  function Increment(target: int): (inc: real)
    ensures inc * 125.0 == target as real
  {
    target as real / (Duration / FrameInterval)
  }

  /** Math.floor of a / 125 equals integer division by 125. */
  lemma FloorOfFraction(a: int)
    ensures (a as real / 125.0).Floor == a / 125
  {
    var q := a / 125;
    assert a == q * 125 + a % 125;
    assert a as real / 125.0 == q as real + (a % 125) as real / 125.0;
  }

  /** For a positive target the shown values never decrease and stay below the target. */
  lemma ShownBelowTarget(target: int, i: int, j: int)
    requires target > 0 && 1 <= i <= j < 125
    ensures (i * target) / 125 <= (j * target) / 125 < target
  {
    assert i * target <= j * target;
    assert j * target < 125 * target;
  }

  /** The count after `frame` frames: that many increments. */
  function CountAfter(target: int, frame: nat): (c: real)
    ensures c == frame as real * Increment(target)
  {
    (frame * target) as real / 125.0
  }

  /** One more frame adds one increment. */
  lemma CountStep(target: int, frame: nat)
    ensures CountAfter(target, frame) + Increment(target) == CountAfter(target, frame + 1)
  {
    assert (frame + 1) * target == frame * target + target;
  }

  /**
   * Within the first 125 frames, the count is below the target exactly
   * while the target is positive and fewer than 125 frames have run.
   */
  lemma CountBelowTarget(target: int, frame: nat)
    requires 1 <= frame <= 125
    ensures CountAfter(target, frame) < target as real <==> target > 0 && frame < 125
  {
    if target > 0 {
      if frame < 125 {
        assert frame * target < 125 * target;
      } else {
        assert frame * target >= 125 * target;
      }
    } else {
      assert frame * target >= 125 * target;
    }
  }

  /**
   * `animateCounter` from its first frame to its last.  For a positive
   * target the count-up takes 125 frames: frame k (from 1) shows
   * floor(k * target / 125) for k < 125, and the last shows the target.
   * For a target of zero or less the first frame already reaches it.
   */
  method AnimateCounter(target: int) returns (shown: seq<int>)
    ensures |shown| == if target > 0 then 125 else 1
    ensures shown[|shown| - 1] == target
    ensures forall k :: 0 <= k < |shown| - 1 ==> shown[k] == ((k + 1) * target) / 125
    ensures forall i, j :: 0 <= i <= j < |shown| ==> shown[i] <= shown[j]
  {
    var increment := Increment(target);
    var current := 0.0;
    shown := [];
    CountStep(target, 0);
    current := current + increment;
    while current < target as real
      invariant current == CountAfter(target, |shown| + 1)
      invariant target > 0 ==> |shown| + 1 <= 125
      invariant target <= 0 ==> shown == []
      invariant forall k :: 0 <= k < |shown| ==> shown[k] == ((k + 1) * target) / 125
      decreases 125 - |shown|
    {
      CountBelowTarget(target, |shown| + 1);
      FloorOfFraction((|shown| + 1) * target);
      CountStep(target, |shown| + 1);
      shown := shown + [current.Floor];
      current := current + increment;
    }
    CountBelowTarget(target, |shown| + 1);
    shown := shown + [target];
    forall i, j | 0 <= i <= j < |shown|
      ensures shown[i] <= shown[j]
    {
      if i < j {
        ShownBelowTarget(target, i + 1, if j < |shown| - 1 then j + 1 else i + 1);
      }
    }
  }
}
