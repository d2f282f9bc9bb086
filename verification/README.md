# Cursor trail and scrolling background — a Dafny model

`script.js` drives two visual effects. The first is a background filled with
clones of a word tile. The second is a pointer trail: a pool of up to 1000
small SVG circles. Each circle is born at the smoothed pointer position with a
radius that grows with the pointer's speed, and it removes itself when its
fade-out tween ends.

This project models the sequential logic behind both effects over exact
arithmetic (`nat`, `real`) and immutable values:

- `background.dfy` (module `Background`): `Background.updateWords`, meaning
  how many tiles to clone, the guard on a zero tile height, and the per-clone
  index and style factors.
- `pointer.dfy` (module `Pointer`): the speed sampler
  `Cursor.getMouseMovement` and the position smoothing in `Cursor.tick`. It
  also covers what repeated sampling of a still pointer does to the speed.
- `hex.dfy` (module `Hex`): `Number.prototype.toString(16)` for non-negative
  integers, a two-digit padded variant, and a parser that inverts both.
- `particle.dfy` (module `Particle`): the attributes the `Point` constructor
  derives from its random draws, meaning the radius, the oscillation
  parameters and the fill colour. The fill is built as the constructor builds
  it, with the unpadded alpha suffix. A padded variant sits beside it (see
  "## Findings").
- `pool.dfy` (module `Pool`): sequences of particle ids. This covers
  identity-based removal and the reversed order of the SVG wrapper.
- `cursor.dfy` (module `Emitter`): the cursor state, `Cursor.emitCursor`
  (both as a function and as the source's counting loop), `Cursor.tick` and
  `Point.kill`.
- `optional.dfy` (module `Optional`): the `Option` type used by the hex
  parser and by runs of events.
- `arith.dfy` (module `RealArith`): the sign and order facts about real
  products that the radius and speed-decay proofs use.
- `page.dfy` (module `Page`): any interleaving of pointer events, sampler
  runs, frames and tween completions, starting from page load.

Particles are named by natural ids handed out in emission order. A live
particle is stored as the inputs its constructor received (a `Birth`: spawn
position, speed, window diagonal and six draws). `Particle.NewPoint` derives
its attributes from those inputs exactly as the constructor does. The SVG wrapper's children are kept as a
sequence `layer`. The cursor invariant `Emitter.Valid` says that `layer` is
always the pool read back to front, because every new element is prepended.

Every `Math.random()` value is an input in [0, 1). The distance
`Math.hypot` returns is an input `d` constrained by `d >= 0` and
`d * d == dx * dx + dy * dy`.

## Model

| member | source | states |
|---|---|---|
| Background.TileCount | script.js:28-29 | for a positive tile height, the count minus the overscan of 2 is the least number of tiles covering the height (the ceiling of height / size) |
| Background.UpdateWords | script.js:25-44 | a zero tile height leaves the container as it was; otherwise it holds exactly TileCount clones in order, clone i tagged i, with a position factor in [0, 1) and a duration factor in [0, 2) taken from the i-th pair of draws |
| Background.Clone | script.js:35-39 | clone i is tagged i; draws in [0, 1) give it a position factor in [0, 1) and a duration factor in [0, 2) |
| Background.TileCountExample | script.js:29 | a 500-pixel container of 50-pixel tiles gets 12 tiles, an empty one 2, a 501-pixel one 13 |
| Background.TileCountMonotone | script.js:29 | a taller container never gets fewer tiles |
| Pointer.Approach | script.js:111 | one moving-average step lands between the old value and the target, and leaves 90% of the gap |
| Pointer.NextSpeed | script.js:111-114 | the new speed is 0 exactly when the average falls below 0.001, and is the average otherwise, so it is never in (0, 0.001) |
| Pointer.Sample | script.js:106-119 | one sampler run sets `last` to the raw position, changes only the speed, keeps the speed non-negative, and never raises it above the larger of the old speed and the displacement |
| Pointer.Follow | script.js:142-146 | each smoothed coordinate moves a tenth of the way to the raw one, ending between the two, and nothing else changes |
| Pointer.Idle | script.js:106-121 | repeated samples of a still pointer keep positions fixed and a non-negative speed, which is 0 or at least the threshold |
| Pointer.IdleSplit | script.js:106-121 | k + j idle samples are k samples followed by j samples |
| Pointer.IdleStaysAtRest | script.js:111-114 | a still pointer at speed 0 stays at speed 0 |
| Pointer.IdleDecay | script.js:111-114 | after n idle samples the speed is at most 10 / (n + 10) of its start |
| Pointer.IdleComesToRest | script.js:111-114 | a still pointer with speed v reaches speed exactly 0 within 10000 * v samples |
| Pointer.RestIsPermanent | script.js:111-114 | once the idle speed has reached 0 it stays 0 for every later sample |
| Hex.ToHex | script.js:186 | `toString(16)` of a natural: lowercase digits, no leading zero, one digit exactly below 16, at most two below 256, and it parses back to the number |
| Hex.Hex2 | script.js:186 | a byte as exactly two hex digits, which is the unpadded form with a '0' in front for bytes below 16, and parses back to the byte |
| Particle.AlphaByte | script.js:186 | `Math.round(u * 255)` for a draw in [0, 1) is a byte within 0.5 of u * 255 |
| Particle.PaletteColour | script.js:178-185 | cyan exactly for draws below 0.33, amber exactly for [0.33, 0.66), pink exactly from 0.66, each a six-digit CSS colour |
| Particle.FillAsWritten | script.js:178-187 | the fill as built: the palette colour followed by an alpha suffix that parses back to the alpha byte, one digit long exactly when the byte is below 16 |
| Particle.FillAsWrittenMalformed | script.js:186-187 | the fill as built is a CSS hex colour if and only if the alpha byte is at least 16 |
| Particle.FillAsWrittenCounterexample | script.js:186 | colour and alpha draws of 0 yield "#4cede10", which is not a CSS colour |
| Particle.Fill | script.js:178-187 | the fill with a two-digit alpha is always a nine-character CSS colour, with the palette prefix and the alpha byte as suffix, and equals the as-built fill whenever that is well formed |
| Particle.Scale | script.js:166-168 | a draw in [0, 1) times a non-negative bound lies in [0, bound], strictly below a positive bound, and is 0 for a zero bound |
| Particle.Round | script.js:186 | `Math.round`: the result is the integer within half a unit of x, with halves going up (x - 0.5 < n <= x + 0.5) |
| Particle.NewPoint | script.js:160-187 | a new particle starts at its anchor; its radius lies in [0, min(speed, diagonal * 0.005)] and is 0 at speed 0; seed, frequency and amplitude lie in [0, 1000), [0.05, 0.15) and [0, 10); the fill is the palette colour followed by the unpadded alpha suffix, which parses back to the alpha byte, is one digit exactly when the byte is below 16, and so is a CSS colour exactly when the byte is at least 16 |
| Particle.NewPointPadded | script.js:160-187 | the constructor with a two-digit alpha: the same particle except for the fill, which is always a CSS colour carrying the alpha byte, and the constructor's own particle whenever its fill is well formed |
| Particle.ZeroDrawsFill | script.js:178-186 | a particle whose draws are all 0 gets the fill "#4cede10" from the constructor and "#4cede100" from the padded variant |
| Particle.RestingPointerSpawnsDots | script.js:166-168 | at speed 0 the radius is exactly 0, for any non-negative window diagonal |
| Pool.ReverseAppend | script.js:133-134 | pushing an id at the back of the pool prepends it to the wrapper |
| Pool.IndexOf | script.js:216-218 | the first index holding the element |
| Pool.RemoveFirst | script.js:216-220 | removal by identity: the first occurrence is spliced out, and a sequence without the element is unchanged |
| Pool.RemoveFirstDistinct | script.js:216-220 | on ids without repeats, removal loses exactly the removed id, shortens the pool by one exactly when the id was present, and creates no repeats |
| Pool.RemoveFirstReverse | script.js:216-222 | removing an id from the pool and detaching it from the wrapper keep the wrapper equal to the reversed pool |
| Emitter.Initial | script.js:51-65 | the constructed cursor is valid, with raw, last and smoothed positions at the origin and speed 0, the measured window diagonal, no points and the id counter at 0 |
| Emitter.Spawn | script.js:127-135 | n loop iterations keep the cursor valid and extend the pool by n fresh consecutive ids, all born at the smoothed position with the current speed and window diagonal |
| Emitter.SpawnOne | script.js:128-134 | one loop iteration pushes the next id at the back of the pool and prepends it to the wrapper, which therefore stays the reversed pool; it records the birth at the smoothed position with the current speed and diagonal, and advances the id counter |
| Emitter.SpawnOneKeepsValid | script.js:128-134 | one iteration keeps ids distinct and fresh, the wrapper reversed and every birth in range |
| Emitter.Emit | script.js:124-137 | a pool below 1000 is topped up to exactly 1000, a pool at or above 1000 is left unchanged, and the result extends the old cursor by the number of free places |
| Emitter.EmitCursor | script.js:124-137 | the source's count-down loop computes exactly `Emit` |
| Emitter.ExtendsDetermines | script.js:126-135 | the valid result of n emissions from a given cursor with given draws is unique |
| Emitter.EmitTopsUp | script.js:124-137 | after emission the old pool is a prefix, the new ids are fresh and consecutive, the new births use the current smoothed position, speed and diagonal, and old points are untouched |
| Emitter.EmittedPointShape | script.js:128-132 | a point emitted this frame starts at the smoothed position, with radius at most min(speed, diagonal * 0.005), which is 0 when the pointer is at rest |
| Emitter.Kill | script.js:213-223 | `kill` keeps the cursor valid; exactly the killed id leaves the pool, the wrapper and the live points; the pool shrinks by one when the id was live and the rest keeps its order; an absent id changes nothing |
| Emitter.KillKeepsValid | script.js:213-223 | removal keeps ids distinct, the wrapper reversed and the live points matching the pool |
| Emitter.KillIdempotent | script.js:213-220 | killing the same point twice is the same as killing it once |
| Emitter.Tick | script.js:139-146 | a frame tops up the pool with fresh ids born at the smoothed position, speed and diagonal from before the frame, then moves the smoothed position between its old value and the raw position; points already alive keep their births, the diagonal is unchanged and the id counter advances by the number emitted |
| Emitter.EmissionPrecedesSmoothing | script.js:139-146 | when the smoothed position lags the pointer, the points born in a frame are not at the position the frame ends with |
| Emitter.SampleKeepsValid | script.js:106-119 | a sampler run keeps the cursor invariant |
| Emitter.FullPoolKillThenTick | script.js:124-137 | with a full pool, one death leaves 999 points, and the next frame emits exactly one point, with the next id, at the back |
| Page.Step | script.js:94-146 | every admissible event keeps the cursor valid; a frame fills the pool to 1000 from below, a completion removes at most one point, pointer events and samples leave the pool alone, and no event pushes a pool past 1000 |
| Page.Run | script.js:94-146 | every state reached by a run of events is valid, and a run that starts within capacity stays within it; pointer events alone never touch the pool |
| Page.PoolWithinCapacity | script.js:124-137 | from page load, whatever events follow, the pool never holds more than 1000 points |
| Page.FirstFrameFills | script.js:124-137 | the first frame after page load fills the pool to 1000 |

## Left out

- DOM and SVG work is not modelled. That means element lookup, cloning, `innerHTML`, attribute and CSS custom-property writes, and `--mouse-x`/`--mouse-y`. The container is a sequence of `Tile` records and the wrapper is a sequence of ids.
- Event binding is not modelled. The mouse and touch handlers appear only as `Page.Move`, which sets the raw position. The handler's unguarded read of the first touch point is not modelled.
- `setTimeout` rescheduling and the `gsap.ticker` registration are not modelled. Each timer run or frame is one event, and nothing about timing is claimed.
- The tween in `Point.init` is not modelled: easing, duration, rise, shrinking radius and the cosine oscillation. The two draws it makes are not part of `Draws`. Its completion is the `Complete` event, which may name any id.
- `Math.hypot` and `Math.random` are inputs, constrained by `IsDistance` and by draws in [0, 1).
- IEEE-754 rounding is not modelled. All arithmetic is exact over `real`, so nothing here is claimed bit for bit.
- `Cursor.resizeHandler` and `Background.resizeHandler` are not modelled. The window diagonal is fixed by `Emitter.Initial`, and the container height is an input to `UpdateWords`.
- Background.UpdateWords: the source computes the tile count before the size guard, where a zero size gives a non-finite count that is never used. The model computes it only for a positive size. Heights are whole pixels, as `clientHeight` returns them.
- Emitter.Kill: the source's `forEach` splices out the element that matches the point and then skips the element that shifted into its place, so of two adjacent copies only the first would go, while copies further apart are all removed. The model removes the first occurrence. The two agree because the invariant keeps ids distinct: every point is pushed once, so there is a single occurrence to remove.
- Emitter.Emit: points are stored as their constructor inputs (`Birth`), not as constructed `Point` values. Their attributes are `Particle.NewPoint` of that record.

## Findings

| source | as written | input that shows it | evidently intended | confidence | as-written member | corrected member |
|---|---|---|---|---|---|---|
| script.js:186 | the alpha byte is appended as unpadded hex, so bytes below 16 give one digit and a fill of seven hex digits, which is not a CSS colour length | colour and alpha draws of 0 give "#4cede10"; any alpha draw below 15.5 / 255 gives a one-digit suffix | an eight-digit `#rrggbbaa` colour with the alpha padded to two digits | medium; not executed | Particle.FillAsWritten, used by Particle.NewPoint (with Particle.FillAsWrittenMalformed, Particle.FillAsWrittenCounterexample and Particle.ZeroDrawsFill) | Particle.Fill, used by Particle.NewPointPadded |
