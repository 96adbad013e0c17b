/**
  The per-tick easing of one coordinate toward its target: snap to the
  target when closer than the drop speed, otherwise move by exactly the drop
  speed toward it.
*/
module Easing {

  function Abs(a: int): nat {
    if a < 0 then -a else a
  }

  /** One easing step of coordinate `p` toward `target` by `speed`. */
  function Ease(p: int, target: int, speed: int): (q: int)
    ensures speed > 0 ==> Abs(q - target) <= Abs(p - target)
    ensures speed > 0 && Abs(p - target) < speed ==> q == target
    ensures speed > 0 && Abs(p - target) >= speed ==>
              Abs(q - p) == speed && Abs(q - target) == Abs(p - target) - speed
  {
    if Abs(p - target) < speed then target
    else if p > target then p - speed
    else p + speed
  }

  /** `k` consecutive easing steps. */
  function EaseSteps(p: int, target: int, speed: int, k: nat): int
    decreases k
  {
    if k == 0 then p else EaseSteps(Ease(p, target, speed), target, speed, k - 1)
  }

  /** With a positive speed a coordinate reaches its target after at most
      `ceil(distance / speed)` steps and stays there. */
  lemma {:induction false} EaseSettles(p: int, target: int, speed: int, k: nat)
    requires speed > 0 && k * speed >= Abs(p - target)
    ensures EaseSteps(p, target, speed, k) == target
    decreases k
  {
    if k > 0 {
      var q := Ease(p, target, speed);
      assert k * speed == (k - 1) * speed + speed;
      EaseSettles(q, target, speed, k - 1);
    }
  }
}
