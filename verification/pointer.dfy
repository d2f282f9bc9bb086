/**
 * The cursor's pointer tracker: the 20 ms speed sampler
 * (`Cursor.getMouseMovement`) and the per-frame smoothing of the position
 * (second half of `Cursor.tick`), over exact reals.
 */
module Pointer {
  import opened RealArith

  /** A point in page coordinates. */
  datatype Vec = Vec(x: real, y: real)

  /**
   * Raw position (from the latest pointer event), the position seen by the
   * previous sample, the exponentially smoothed position, and the smoothed
   * speed.
   */
  datatype Mouse = Mouse(position: Vec, last: Vec, smooth: Vec, speed: real)

  /** Weight of the new value in both exponential moving averages. */
  const Smoothing: real := 0.1

  /** A smoothed speed below this is snapped to exactly 0. */
  const RestThreshold: real := 0.001

  /** The tracker as the constructor leaves it: everything at the origin, at rest. */
  const Still: Mouse := Mouse(Vec(0.0, 0.0), Vec(0.0, 0.0), Vec(0.0, 0.0), 0.0)

  function Max(a: real, b: real): real {
    if a < b then b else a
  }

  predicate Between(a: real, v: real, b: real) {
    (a <= v <= b) || (b <= v <= a)
  }

  /**
   * One step of an exponential moving average from `from` toward `to`: the
   * result lies between the two and the remaining gap is 90% of the old one.
   */
  function Approach(from: real, to: real): (r: real)
    ensures Between(from, r, to)
    ensures r - to == (1.0 - Smoothing) * (from - to)
  {
    from + (to - from) * Smoothing
  }

  /** `d` is the Euclidean distance between a and b (what `Math.hypot` returns). */
  predicate IsDistance(d: real, a: Vec, b: Vec) {
    0.0 <= d && d * d == (a.x - b.x) * (a.x - b.x) + (a.y - b.y) * (a.y - b.y)
  }

  /**
   * The smoothed speed after one sample of displacement `dist`: never
   * negative, either exactly 0 or at least the rest threshold, and 0 exactly
   * when the moving average fell below the threshold.
   */
  function NextSpeed(speed: real, dist: real): (r: real)
    ensures r == 0.0 || RestThreshold <= r
    ensures r == 0.0 <==> Approach(speed, dist) < RestThreshold
    ensures r != 0.0 ==> r == Approach(speed, dist)
  {
    var s := Approach(speed, dist);
    if s < RestThreshold then 0.0 else s
  }

  /**
   * One run of the sampler, given the distance the pointer moved since the
   * previous sample. Only the speed and `last` change; `last` catches up with
   * the raw position, and a non-negative speed never overshoots the larger of
   * its old value and the new displacement.
   */
  function Sample(m: Mouse, dist: real): (r: Mouse)
    requires IsDistance(dist, m.position, m.last)
    ensures r.last == m.position
    ensures r.position == m.position && r.smooth == m.smooth
    ensures r.speed == NextSpeed(m.speed, dist)
    ensures 0.0 <= r.speed
    ensures 0.0 <= m.speed ==> r.speed <= Max(m.speed, dist)
  {
    m.(speed := NextSpeed(m.speed, dist), last := m.position)
  }

  /**
   * The smoothing half of a frame: each smoothed coordinate moves a tenth of
   * the way toward the raw one, so it stays between the old smoothed value
   * and the raw value; nothing else changes.
   */
  function Follow(m: Mouse): (r: Mouse)
    ensures r.position == m.position && r.last == m.last && r.speed == m.speed
    ensures Between(m.smooth.x, r.smooth.x, m.position.x)
    ensures Between(m.smooth.y, r.smooth.y, m.position.y)
    ensures r.smooth.x - m.position.x == (1.0 - Smoothing) * (m.smooth.x - m.position.x)
    ensures r.smooth.y - m.position.y == (1.0 - Smoothing) * (m.smooth.y - m.position.y)
  {
    m.(smooth := Vec(Approach(m.smooth.x, m.position.x), Approach(m.smooth.y, m.position.y)))
  }

  /**
   * `n` samples while the pointer does not move: after the first, `last` and
   * `position` coincide, so every displacement is 0.
   */
  function Idle(m: Mouse, n: nat): (r: Mouse)
    requires m.position == m.last
    ensures r.position == m.position && r.last == m.position && r.smooth == m.smooth
    ensures n == 0 ==> r == m
    ensures 1 <= n ==> r.speed == 0.0 || RestThreshold <= r.speed
    ensures 0.0 <= m.speed ==> 0.0 <= r.speed
    decreases n
  {
    if n == 0 then m
    else
      var prev := Idle(m, n - 1);
      Sample(prev, 0.0)
  }

  /** Idle samples can be split at any point. */
  lemma {:induction false} IdleSplit(m: Mouse, k: nat, j: nat)
    requires m.position == m.last
    ensures Idle(m, k + j) == Idle(Idle(m, k), j)
    decreases j
  {
    if j > 0 {
      IdleSplit(m, k, j - 1);
      assert k + j - 1 == k + (j - 1);
    }
  }

  /** A pointer at rest stays at rest: speed 0 is a fixed point of the sampler. */
  lemma {:induction false} IdleStaysAtRest(m: Mouse, n: nat)
    requires m.position == m.last && m.speed == 0.0
    ensures Idle(m, n).speed == 0.0
    decreases n
  {
    if n > 0 {
      IdleStaysAtRest(m, n - 1);
    }
  }

  /**
   * With no movement the speed decays at least as fast as 10 / (10 + n):
   * each sample keeps 90% of it, or snaps it to 0.
   */
  lemma {:induction false} IdleDecay(m: Mouse, n: nat)
    requires m.position == m.last && 0.0 <= m.speed
    ensures Idle(m, n).speed * (n as real + 10.0) <= 10.0 * m.speed
    decreases n
  {
    if n > 0 {
      IdleDecay(m, n - 1);
      var s := Idle(m, n - 1).speed;
      assert Idle(m, n).speed == NextSpeed(s, 0.0);
      DecayStep(s, n);
    }
  }

  /** One idle sample, the n-th, does not raise speed * (samples so far + 10). */
  lemma DecayStep(s: real, n: nat)
    requires 0.0 <= s && 1 <= n
    ensures NextSpeed(s, 0.0) * (n as real + 10.0) <= s * ((n - 1) as real + 10.0)
  {
    var s' := NextSpeed(s, 0.0);
    var k := (n - 1) as real;
    assert n as real + 10.0 == k + 11.0;
    assert s' == 0.0 || s' == 0.9 * s;
    ProductSign(s, 0.1 * k + 0.1);
    if s' == 0.0 {
      ProductSign(s, k + 10.0);
    } else {
      assert s' * (k + 11.0) == s * (k + 10.0) - s * (0.1 * k + 0.1);
    }
  }

  /**
   * Once the pointer stops, the speed reaches exactly 0 within
   * `10000 * speed` samples (the snap threshold guarantees a finite time).
   */
  lemma IdleComesToRest(m: Mouse, n: nat)
    requires m.position == m.last && 0.0 <= m.speed
    requires 1 <= n && 10000.0 * m.speed < n as real + 10.0
    ensures Idle(m, n).speed == 0.0
  {
    IdleDecay(m, n);
    SnapForced(Idle(m, n).speed, n as real + 10.0, m.speed);
  }

  /**
   * A speed that is 0 or at least the threshold, whose product with x is at
   * most 10 * v while 10000 * v is below x, must be 0.
   */
  lemma SnapForced(s: real, x: real, v: real)
    requires s == 0.0 || RestThreshold <= s
    requires 0.0 < x && s * x <= 10.0 * v && 10000.0 * v < x
    ensures s == 0.0
  {
    if s != 0.0 {
      ScaleBelow(RestThreshold, s, x);
      assert false;
    }
  }

  /** After the speed has reached 0 on a still pointer, it stays 0 for good. */
  lemma RestIsPermanent(m: Mouse, k: nat, n: nat)
    requires m.position == m.last && k <= n
    requires Idle(m, k).speed == 0.0
    ensures Idle(m, n).speed == 0.0
  {
    IdleSplit(m, k, n - k);
    IdleStaysAtRest(Idle(m, k), n - k);
  }
}
