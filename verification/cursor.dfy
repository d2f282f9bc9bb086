/**
 * The particle emitter: the cursor's pool of live points (`Cursor.points`),
 * its top-up to a fixed size on every frame (`Cursor.emitCursor`), the frame
 * itself (`Cursor.tick`) and a point's self-removal (`Point.kill`).
 *
 * Points are named by ids handed out in emission order; each live point is
 * kept as the inputs its constructor received (a `Birth`), from which
 * `NewPoint` derives its attributes. Besides the `points` array (`pool`) the
 * state keeps the children of the SVG wrapper (`layer`), into which every
 * new point's element is prepended and from which `kill` detaches it.
 */
module Emitter {
  import opened Pointer
  import opened Particle
  import opened Pool

  /** The pool size every frame tops up to. */
  const MaxPoints: nat := 1000

  datatype Cursor = Cursor(
    mouse: Mouse,
    windowSize: real,
    pool: seq<nat>,
    layer: seq<nat>,
    points: map<nat, Birth>,
    nextId: nat)

  /**
   * The invariant every reachable cursor keeps: speed and window diagonal
   * are non-negative, the pool holds each point once, every id in it was
   * handed out already, exactly the pooled ids have a live point, and the
   * wrapper shows the pool back to front.
   */
  ghost predicate Valid(c: Cursor) {
    && 0.0 <= c.mouse.speed
    && 0.0 <= c.windowSize
    && Distinct(c.pool)
    && (forall id :: id in c.pool ==> id < c.nextId)
    && (forall id :: id in c.points <==> id in c.pool)
    && (forall id :: id in c.points ==> c.points[id].InRange())
    && c.layer == Reverse(c.pool)
  }

  ghost predicate DrawsInRange(rng: nat -> Draws) {
    forall k :: rng(k).InRange()
  }

  /** The cursor as its constructor leaves it, for a window of diagonal `windowSize`. */
  function Initial(windowSize: real): (c: Cursor)
    requires 0.0 <= windowSize
    ensures Valid(c) && |c.pool| == 0 && |c.points| == 0
    ensures c.mouse == Still && c.mouse.speed == 0.0
    ensures c.windowSize == windowSize && c.nextId == 0
  {
    Cursor(Still, windowSize, [], [], map[], 0)
  }

  /**
   * One iteration of the emission loop: a point with a fresh id, anchored at
   * the smoothed position, joins the back of the pool and the front of the
   * wrapper.
   */
  function SpawnOne(c: Cursor, d: Draws): (r: Cursor)
    ensures r.pool == c.pool + [c.nextId] && |r.pool| == |c.pool| + 1
    ensures r.layer == [c.nextId] + c.layer
    ensures c.layer == Reverse(c.pool) ==> r.layer == Reverse(r.pool)
    ensures r.points == c.points[c.nextId := Birth(c.mouse.smooth, c.mouse.speed, c.windowSize, d)]
    ensures r.nextId == c.nextId + 1
    ensures r.mouse == c.mouse && r.windowSize == c.windowSize
  {
    var id := c.nextId;
    ReverseAppend(c.pool, id);
    c.(
      pool := c.pool + [id],
      layer := [id] + c.layer,
      points := c.points[id := Birth(c.mouse.smooth, c.mouse.speed, c.windowSize, d)],
      nextId := id + 1)
  }

  /** One iteration keeps the invariant: the new id is fresh and its birth is in range. */
  lemma SpawnOneKeepsValid(c: Cursor, d: Draws)
    requires Valid(c) && d.InRange()
    ensures Valid(SpawnOne(c, d))
  {
    var id := c.nextId;
    var r := SpawnOne(c, d);
    ReverseAppend(c.pool, id);
    AppendDistinct(c.pool, id);
    assert forall x :: x in r.pool <==> x in c.pool || x == id;
  }

  /**
   * `r` is `c` after n iterations of the emission loop, the k-th (from 0)
   * using draws `rng(k)`: the old pool is kept as a prefix, followed by n
   * fresh consecutive ids whose points are all born at the same smoothed
   * position, speed and window size; earlier points are untouched.
   */
  ghost predicate Extends(c: Cursor, r: Cursor, n: nat, rng: nat -> Draws) {
    && |r.pool| == |c.pool| + n && r.pool[..|c.pool|] == c.pool
    && (forall k :: |c.pool| <= k < |r.pool| ==> r.pool[k] == c.nextId + (k - |c.pool|))
    && (forall k :: |c.pool| <= k < |r.pool| ==>
          r.pool[k] in r.points && r.points[r.pool[k]] == Birth(c.mouse.smooth, c.mouse.speed, c.windowSize, rng(k - |c.pool|)))
    && (forall id :: id in c.points ==> id in r.points && r.points[id] == c.points[id])
    && r.nextId == c.nextId + n
    && r.mouse == c.mouse && r.windowSize == c.windowSize
  }

  /** `n` iterations of the emission loop. */
  function Spawn(c: Cursor, n: nat, rng: nat -> Draws): (r: Cursor)
    requires Valid(c) && DrawsInRange(rng)
    ensures Valid(r) && Extends(c, r, n, rng)
    decreases n
  {
    if n == 0 then
      assert c.pool[..|c.pool|] == c.pool;
      c
    else
      var prev := Spawn(c, n - 1, rng);
      var r := SpawnOne(prev, rng(n - 1));
      SpawnOneKeepsValid(prev, rng(n - 1));
      SpawnStep(c, n, rng, prev, r);
      r
  }

  /**
   * The inductive step of `Spawn`: one more iteration, which appends the id
   * `prev.nextId` born from `rng(n - 1)`, extends n - 1 iterations to n.
   */
  lemma SpawnStep(c: Cursor, n: nat, rng: nat -> Draws, prev: Cursor, r: Cursor)
    requires 1 <= n && Extends(c, prev, n - 1, rng)
    requires forall id :: id in prev.points ==> id < prev.nextId
    requires r.pool == prev.pool + [prev.nextId] && r.nextId == prev.nextId + 1
    requires r.points == prev.points[prev.nextId := Birth(prev.mouse.smooth, prev.mouse.speed, prev.windowSize, rng(n - 1))]
    requires r.mouse == prev.mouse && r.windowSize == prev.windowSize
    ensures Extends(c, r, n, rng)
  {
    SpawnStepPool(c, n, prev, r);
    SpawnStepPoints(c, n, rng, prev, r);
  }

  lemma SpawnStepPool(c: Cursor, n: nat, prev: Cursor, r: Cursor)
    requires 1 <= n
    requires |prev.pool| == |c.pool| + n - 1 && prev.pool[..|c.pool|] == c.pool
    requires forall k :: |c.pool| <= k < |prev.pool| ==> prev.pool[k] == c.nextId + (k - |c.pool|)
    requires prev.nextId == c.nextId + n - 1
    requires r.pool == prev.pool + [prev.nextId]
    ensures |r.pool| == |c.pool| + n && r.pool[..|c.pool|] == c.pool
    ensures forall k :: |c.pool| <= k < |r.pool| ==> r.pool[k] == c.nextId + (k - |c.pool|)
  {
    assert r.pool[..|c.pool|] == prev.pool[..|c.pool|];
    forall k | |c.pool| <= k < |r.pool|
      ensures r.pool[k] == c.nextId + (k - |c.pool|)
    {
      if k < |prev.pool| {
        assert r.pool[k] == prev.pool[k];
      }
    }
  }

  lemma SpawnStepPoints(c: Cursor, n: nat, rng: nat -> Draws, prev: Cursor, r: Cursor)
    requires 1 <= n && |prev.pool| == |c.pool| + n - 1
    requires forall id :: id in prev.points ==> id < prev.nextId
    requires forall k :: |c.pool| <= k < |prev.pool| ==>
      prev.pool[k] in prev.points && prev.points[prev.pool[k]] == Birth(c.mouse.smooth, c.mouse.speed, c.windowSize, rng(k - |c.pool|))
    requires forall id :: id in c.points ==> id in prev.points && prev.points[id] == c.points[id]
    requires prev.mouse == c.mouse && prev.windowSize == c.windowSize
    requires r.pool == prev.pool + [prev.nextId]
    requires r.points == prev.points[prev.nextId := Birth(prev.mouse.smooth, prev.mouse.speed, prev.windowSize, rng(n - 1))]
    ensures forall k :: |c.pool| <= k < |r.pool| ==>
      r.pool[k] in r.points && r.points[r.pool[k]] == Birth(c.mouse.smooth, c.mouse.speed, c.windowSize, rng(k - |c.pool|))
    ensures forall id :: id in c.points ==> id in r.points && r.points[id] == c.points[id]
  {
    var id := prev.nextId;
    forall k | |c.pool| <= k < |r.pool|
      ensures r.pool[k] in r.points
      ensures r.points[r.pool[k]] == Birth(c.mouse.smooth, c.mouse.speed, c.windowSize, rng(k - |c.pool|))
    {
      if k < |prev.pool| {
        assert r.pool[k] == prev.pool[k];
        assert prev.pool[k] != id;
      } else {
        assert k - |c.pool| == n - 1;
        assert r.pool[k] == id;
      }
    }
    forall x | x in c.points
      ensures x in r.points && r.points[x] == c.points[x]
    {
      assert x != id;
    }
  }

  /**
   * `emitCursor`: a pool below 1000 points is topped up to exactly 1000, a
   * pool at or above it is left alone; the result is the cursor after as
   * many iterations of the emission loop as there were free places.
   */
  function Emit(c: Cursor, rng: nat -> Draws): (r: Cursor)
    requires Valid(c) && DrawsInRange(rng)
    ensures Valid(r)
    ensures |c.pool| < MaxPoints ==> |r.pool| == MaxPoints
    ensures MaxPoints <= |c.pool| ==> r == c
    ensures |c.pool| <= |r.pool| && Extends(c, r, |r.pool| - |c.pool|, rng)
  {
    if |c.pool| < MaxPoints then
      Spawn(c, MaxPoints - |c.pool|, rng)
    else
      assert c.pool[..|c.pool|] == c.pool;
      c
  }

  /**
   * `emitCursor` as the source writes it: a loop counting the free places
   * down to 0, each iteration constructing one point and adding it.
   */
  method EmitCursor(c: Cursor, rng: nat -> Draws) returns (r: Cursor)
    requires Valid(c) && DrawsInRange(rng)
    ensures r == Emit(c, rng)
  {
    r := c;
    if |c.pool| < MaxPoints {
      var n := MaxPoints - |c.pool|;
      var i := n;
      assert c.pool[..|c.pool|] == c.pool;
      while i > 0
        invariant 0 <= i <= n
        invariant Valid(r) && Extends(c, r, n - i, rng)
      {
        SpawnOneExtends(c, n - i, rng, r);
        r := SpawnOne(r, rng(n - i));
        i := i - 1;
      }
      ExtendsDetermines(c, r, Emit(c, rng), n, rng);
    }
  }

  /** One more iteration of the emission loop, after m of them. */
  lemma SpawnOneExtends(c: Cursor, m: nat, rng: nat -> Draws, r: Cursor)
    requires DrawsInRange(rng) && Valid(r) && Extends(c, r, m, rng)
    ensures Valid(SpawnOne(r, rng(m))) && Extends(c, SpawnOne(r, rng(m)), m + 1, rng)
  {
    SpawnOneKeepsValid(r, rng(m));
    SpawnStep(c, m + 1, rng, r, SpawnOne(r, rng(m)));
  }

  /**
   * A valid cursor that extends `c` by n iterations is unique: the pool, the
   * births, the wrapper and the id counter are all fixed by `c`, n and the
   * draws.
   */
  lemma ExtendsDetermines(c: Cursor, a: Cursor, b: Cursor, n: nat, rng: nat -> Draws)
    requires Valid(c) && Valid(a) && Valid(b)
    requires Extends(c, a, n, rng) && Extends(c, b, n, rng)
    ensures a == b
  {
    forall k | 0 <= k < |a.pool|
      ensures a.pool[k] == b.pool[k]
    {
      if k < |c.pool| {
        assert a.pool[k] == a.pool[..|c.pool|][k];
        assert b.pool[k] == b.pool[..|c.pool|][k];
      }
    }
    assert a.pool == b.pool;
    forall id | id in a.points
      ensures id in b.points && a.points[id] == b.points[id]
    {
      var k :| 0 <= k < |a.pool| && a.pool[k] == id;
      if k < |c.pool| {
        assert id == c.pool[k];
      }
    }
    assert a.points == b.points;
  }

  /**
   * The top-up in detail: existing points keep their order and their state;
   * the new ones follow them, with fresh consecutive ids, anchored at the
   * current smoothed position and shaped by the current speed.
   */
  lemma EmitTopsUp(c: Cursor, rng: nat -> Draws)
    requires Valid(c) && DrawsInRange(rng)
    ensures var r := Emit(c, rng);
      && |r.pool| == (if |c.pool| < MaxPoints then MaxPoints else |c.pool|)
      && r.pool[..|c.pool|] == c.pool
      && (forall k :: |c.pool| <= k < |r.pool| ==> r.pool[k] !in c.pool && r.pool[k] == c.nextId + (k - |c.pool|))
      && (forall k :: |c.pool| <= k < |r.pool| ==>
            r.pool[k] in r.points && r.points[r.pool[k]] == Birth(c.mouse.smooth, c.mouse.speed, c.windowSize, rng(k - |c.pool|)))
      && (forall id :: id in c.points ==> id in r.points && r.points[id] == c.points[id])
      && r.mouse == c.mouse && r.windowSize == c.windowSize
  {
    var r := Emit(c, rng);
    ExtendsUnfold(c, r, |r.pool| - |c.pool|, rng);
  }

  /**
   * A point emitted in this frame starts at the smoothed position, with a
   * radius no larger than the current speed and the window bound allow; a
   * pointer at rest emits points of radius 0.
   */
  lemma EmittedPointShape(c: Cursor, rng: nat -> Draws, k: nat)
    requires Valid(c) && DrawsInRange(rng)
    requires |c.pool| <= k < |Emit(c, rng).pool|
    ensures var r := Emit(c, rng);
      && r.pool[k] in r.points
      && NewPoint(r.points[r.pool[k]]).pos == c.mouse.smooth
      && NewPoint(r.points[r.pool[k]]).radius <= RadiusBound(c.mouse.speed, c.windowSize)
      && (c.mouse.speed == 0.0 ==> NewPoint(r.points[r.pool[k]]).radius == 0.0)
  {
    var r := Emit(c, rng);
    EmitTopsUp(c, rng);
    var b := r.points[r.pool[k]];
    assert b == Birth(c.mouse.smooth, c.mouse.speed, c.windowSize, rng(k - |c.pool|));
  }

  /** What `Extends` says, spelled out, plus: the appended ids are new to the pool. */
  lemma ExtendsUnfold(c: Cursor, r: Cursor, n: nat, rng: nat -> Draws)
    requires Extends(c, r, n, rng)
    requires forall id :: id in c.pool ==> id < c.nextId
    ensures |c.pool| <= |r.pool| && r.pool[..|c.pool|] == c.pool
    ensures forall k :: |c.pool| <= k < |r.pool| ==> r.pool[k] !in c.pool && r.pool[k] == c.nextId + (k - |c.pool|)
    ensures forall k :: |c.pool| <= k < |r.pool| ==>
      r.pool[k] in r.points && r.points[r.pool[k]] == Birth(c.mouse.smooth, c.mouse.speed, c.windowSize, rng(k - |c.pool|))
    ensures forall id :: id in c.points ==> id in r.points && r.points[id] == c.points[id]
    ensures r.mouse == c.mouse && r.windowSize == c.windowSize
  {
  }

  /**
   * `kill`: the point with this id leaves the pool and the wrapper. Exactly
   * that id disappears: when it was pooled the pool loses one element and
   * the others keep their order; otherwise nothing changes.
   */
  function Kill(c: Cursor, id: nat): (r: Cursor)
    requires Valid(c)
    ensures Valid(r)
    ensures id !in r.pool && id !in r.points
    ensures forall x :: x in r.pool <==> x in c.pool && x != id
    ensures id in c.pool ==> |r.pool| == |c.pool| - 1
    ensures id in c.pool ==> r.pool == c.pool[..IndexOf(c.pool, id)] + c.pool[IndexOf(c.pool, id) + 1..]
    ensures id !in c.pool ==> r == c
    ensures forall x :: x in r.points ==> r.points[x] == c.points[x]
    ensures r.mouse == c.mouse && r.windowSize == c.windowSize && r.nextId == c.nextId
  {
    if id !in c.pool then c
    else
      KillKeepsValid(c, id);
      c.(pool := RemoveFirst(c.pool, id), layer := RemoveFirst(c.layer, id), points := c.points - {id})
  }

  lemma KillKeepsValid(c: Cursor, id: nat)
    requires Valid(c) && id in c.pool
    ensures Valid(c.(pool := RemoveFirst(c.pool, id), layer := RemoveFirst(c.layer, id), points := c.points - {id}))
  {
    RemoveFirstDistinct(c.pool, id);
    RemoveFirstReverse(c.pool, id);
    var r := c.(pool := RemoveFirst(c.pool, id), layer := RemoveFirst(c.layer, id), points := c.points - {id});
    assert Distinct(r.pool) && r.layer == Reverse(r.pool);
    forall x
      ensures x in r.points <==> x in r.pool
      ensures x in r.pool ==> x < r.nextId
    {
      assert x in r.pool <==> x in c.pool && x != id;
    }
  }

  /** A point is removed at most once: killing it again changes nothing. */
  lemma KillIdempotent(c: Cursor, id: nat)
    requires Valid(c)
    ensures Kill(Kill(c, id), id) == Kill(c, id)
  {
    assert id !in Kill(c, id).pool;
  }

  /**
   * One frame (`tick`): the pool is topped up first, then the smoothed
   * position moves a tenth of the way toward the raw position. The points
   * born in this frame are therefore anchored at the smoothed position of the
   * previous frame.
   */
  function Tick(c: Cursor, rng: nat -> Draws): (r: Cursor)
    requires Valid(c) && DrawsInRange(rng)
    ensures Valid(r)
    ensures |c.pool| < MaxPoints ==> |r.pool| == MaxPoints
    ensures MaxPoints <= |c.pool| ==> r.pool == c.pool && r.points == c.points
    ensures |c.pool| <= |r.pool| && r.pool[..|c.pool|] == c.pool
    ensures forall k :: |c.pool| <= k < |r.pool| ==> r.pool[k] in r.points && r.points[r.pool[k]].anchor == c.mouse.smooth
    ensures forall k :: |c.pool| <= k < |r.pool| ==>
      r.pool[k] !in c.pool && r.points[r.pool[k]] == Birth(c.mouse.smooth, c.mouse.speed, c.windowSize, rng(k - |c.pool|))
    ensures forall id :: id in c.points ==> id in r.points && r.points[id] == c.points[id]
    ensures r.windowSize == c.windowSize && r.nextId == c.nextId + (|r.pool| - |c.pool|)
    ensures r.mouse == Follow(c.mouse)
    ensures Between(c.mouse.smooth.x, r.mouse.smooth.x, c.mouse.position.x)
    ensures Between(c.mouse.smooth.y, r.mouse.smooth.y, c.mouse.position.y)
  {
    var e := Emit(c, rng);
    EmitTopsUp(c, rng);
    e.(mouse := Follow(e.mouse))
  }

  /**
   * The order inside a frame is visible: when the smoothed position has not
   * caught up with the pointer, the points born in a frame are not at the
   * smoothed position that frame ends with.
   */
  lemma EmissionPrecedesSmoothing(c: Cursor, rng: nat -> Draws, k: nat)
    requires Valid(c) && DrawsInRange(rng)
    requires c.mouse.smooth.x != c.mouse.position.x
    requires |c.pool| <= k < |Tick(c, rng).pool|
    ensures Tick(c, rng).pool[k] in Tick(c, rng).points
    ensures Tick(c, rng).points[Tick(c, rng).pool[k]].anchor != Tick(c, rng).mouse.smooth
  {
    var r := Tick(c, rng);
    var gap := c.mouse.smooth.x - c.mouse.position.x;
    assert r.mouse.smooth.x - c.mouse.position.x == 0.9 * gap;
  }

  /** A sample of the pointer keeps the cursor invariant. */
  lemma SampleKeepsValid(c: Cursor, dist: real)
    requires Valid(c) && IsDistance(dist, c.mouse.position, c.mouse.last)
    ensures Valid(c.(mouse := Sample(c.mouse, dist)))
  {
  }

  /**
   * With the pool full, one point dying makes room for exactly one: the next
   * frame emits a single point, with the next fresh id, at the back.
   */
  lemma FullPoolKillThenTick(c: Cursor, id: nat, rng: nat -> Draws)
    requires Valid(c) && DrawsInRange(rng)
    requires |c.pool| == MaxPoints && id in c.pool
    ensures |Kill(c, id).pool| == MaxPoints - 1
    ensures Tick(Kill(c, id), rng).pool == Kill(c, id).pool + [c.nextId]
  {
    var d := Kill(c, id);
    var t := Tick(d, rng);
    assert t.pool == t.pool[..|d.pool|] + [t.pool[|d.pool|]];
  }
}
