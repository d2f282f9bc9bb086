/**
 * The page as an event-driven system: pointer events set the raw position,
 * the 20 ms timer samples the speed, every animation frame runs `tick`, and
 * a finished tween kills its point. Any interleaving of these events, from
 * the state the constructor leaves, keeps the cursor invariant and never lets
 * the pool grow past its capacity.
 */
module Page {
  import opened Optional
  import opened Pointer
  import opened Particle
  import opened Emitter

  datatype Event =
    | Move(to: Vec)            // a mouse or touch event at page position `to`
    | Timer(dist: real)        // a run of the sampler, `dist` being the hypotenuse it computes
    | Frame(rng: nat -> Draws) // one animation frame, with the draws of the points it constructs
    | Complete(id: nat)        // the tween of point `id` ended

  /**
   * What the environment guarantees about an event: the sampler's distance is
   * the true distance, and `Math.random` draws lie in [0, 1).
   */
  ghost predicate Admissible(c: Cursor, e: Event) {
    match e
    case Move(_) => true
    case Timer(d) => IsDistance(d, c.mouse.position, c.mouse.last)
    case Frame(rng) => DrawsInRange(rng)
    case Complete(_) => true
  }

  /**
   * One event. A frame tops the pool up to capacity from below and never
   * past it; a completion removes at most one point; pointer events and
   * samples leave the pool alone.
   */
  ghost function Step(c: Cursor, e: Event): (r: Cursor)
    requires Valid(c) && Admissible(c, e)
    ensures Valid(r)
    ensures e.Frame? && |c.pool| <= MaxPoints ==> |r.pool| == MaxPoints
    ensures e.Complete? ==> |c.pool| - 1 <= |r.pool| <= |c.pool|
    ensures e.Move? || e.Timer? ==> r.pool == c.pool && r.points == c.points
    ensures |c.pool| <= MaxPoints ==> |r.pool| <= MaxPoints
  {
    match e
    case Move(p) => c.(mouse := c.mouse.(position := p))
    case Timer(d) =>
      SampleKeepsValid(c, d);
      c.(mouse := Sample(c.mouse, d))
    case Frame(rng) => Tick(c, rng)
    case Complete(id) => Kill(c, id)
  }

  /**
   * A run of events; None when an event is not admissible in the state it
   * meets. Every state a run reaches is valid, and a run that starts within
   * capacity stays within it.
   */
  ghost function Run(c: Cursor, es: seq<Event>): (r: Option<Cursor>)
    requires Valid(c)
    ensures r.Some? ==> Valid(r.value)
    ensures r.Some? && |c.pool| <= MaxPoints ==> |r.value.pool| <= MaxPoints
    ensures (forall i :: 0 <= i < |es| ==> es[i].Move?) ==> r.Some? && r.value.pool == c.pool
    decreases |es|
  {
    if |es| == 0 then Some(c)
    else if !Admissible(c, es[0]) then None
    else Run(Step(c, es[0]), es[1..])
  }

  /** Whatever happens after the page loads, the pool holds at most 1000 points. */
  lemma PoolWithinCapacity(windowSize: real, es: seq<Event>)
    requires 0.0 <= windowSize
    ensures Run(Initial(windowSize), es).Some? ==> |Run(Initial(windowSize), es).value.pool| <= MaxPoints
  {
  }

  /** The first frame after the page loads fills the pool completely. */
  lemma FirstFrameFills(windowSize: real, rng: nat -> Draws)
    requires 0.0 <= windowSize && DrawsInRange(rng)
    ensures Run(Initial(windowSize), [Frame(rng)]).Some?
    ensures |Run(Initial(windowSize), [Frame(rng)]).value.pool| == MaxPoints
  {
    assert [Frame(rng)][1..] == [];
  }
}
