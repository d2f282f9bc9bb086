/**
 * The attributes a trail particle gets when it is constructed (`Point`'s
 * constructor): its anchor, radius, oscillation parameters and fill colour.
 * Every `Math.random()` draw is an input in [0, 1).
 */
module Particle {
  import opened Optional
  import opened Hex
  import opened Pointer
  import opened RealArith

  /** The radius never exceeds this fraction of the window diagonal. */
  const RadiusPerDiagonal: real := 0.005

  const Cyan: string := "#4cede1"
  const Amber: string := "#ffc53a"
  const Pink: string := "#ff858d"

  predicate Unit(u: real) {
    0.0 <= u < 1.0
  }

  /** The constructor's six random draws, in the order it makes them. */
  datatype Draws = Draws(radius: real, seed: real, freq: real, amplitude: real, colour: real, alpha: real) {
    predicate InRange() {
      Unit(radius) && Unit(seed) && Unit(freq) && Unit(amplitude) && Unit(colour) && Unit(alpha)
    }
  }

  /**
   * What the constructor is given: the spawn position, the pointer speed and
   * window diagonal read from the cursor at that moment, and its draws.
   */
  datatype Birth = Birth(anchor: Vec, speed: real, windowSize: real, draws: Draws) {
    predicate InRange() {
      0.0 <= speed && 0.0 <= windowSize && draws.InRange()
    }
  }

  /** A freshly constructed particle; `pos` starts at the anchor. */
  datatype Point = Point(
    anchor: Vec,
    pos: Vec,
    radius: real,
    seed: real,
    freq: real,
    amplitude: real,
    fill: string)

  function Min(a: real, b: real): real {
    if a < b then a else b
  }

  /** The largest radius a particle can get at this speed and window size. */
  function RadiusBound(speed: real, windowSize: real): real {
    Min(speed, windowSize * RadiusPerDiagonal)
  }

  /** `Math.round`: the nearest integer, halves rounded up. */
  function Round(x: real): (n: int)
    ensures x - 0.5 < n as real <= x + 0.5
  {
    (x + 0.5).Floor
  }

  /** The alpha byte `Math.round(u * 255)`. */
  function AlphaByte(u: real): (n: nat)
    requires Unit(u)
    ensures n < 256
    ensures n as real - 0.5 <= u * 255.0 < n as real + 0.5
  {
    Round(u * 255.0)
  }

  /** A CSS hex colour: '#' followed by 3, 4, 6 or 8 lowercase hex digits. */
  predicate IsCssHexColour(s: string) {
    && |s| in {4, 5, 7, 9}
    && s[0] == '#'
    && forall i :: 1 <= i < |s| ==> IsHexDigit(s[i])
  }

  /**
   * The palette pick by the thresholds 0.33 and 0.66; each of the three
   * colours is chosen on exactly its interval, and each is an opaque
   * six-digit CSS colour.
   */
  function PaletteColour(c: real): (s: string)
    ensures |s| == 7 && IsCssHexColour(s)
    ensures s == Cyan <==> c < 0.33
    ensures s == Amber <==> 0.33 <= c < 0.66
    ensures s == Pink <==> 0.66 <= c
  {
    if c < 0.33 then Cyan else if c < 0.66 then Amber else Pink
  }

  /**
   * The fill string exactly as the constructor builds it: the palette colour
   * followed by the alpha byte in unpadded hex.
   */
  function FillAsWritten(c: real, u: real): (s: string)
    requires Unit(u)
    ensures 8 <= |s| && s[..7] == PaletteColour(c)
    ensures ParseHex(s[7..]) == Some(AlphaByte(u))
    ensures |s| == 8 <==> AlphaByte(u) < 16
    ensures |s| == 9 <==> 16 <= AlphaByte(u)
  {
    var s := PaletteColour(c) + ToHex(AlphaByte(u));
    assert s[7..] == ToHex(AlphaByte(u));
    s
  }

  /**
   * The as-written fill is a CSS colour exactly when the alpha byte needs two
   * digits; for the other bytes it has seven hex digits, which is no CSS
   * colour length.
   */
  lemma FillAsWrittenMalformed(c: real, u: real)
    requires Unit(u)
    ensures IsCssHexColour(FillAsWritten(c, u)) <==> 16 <= AlphaByte(u)
  {
    var s := FillAsWritten(c, u);
    if 16 <= AlphaByte(u) {
      forall i | 1 <= i < |s|
        ensures IsHexDigit(s[i])
      {
        if i >= 7 {
          assert s[i] == s[7..][i - 7];
        } else {
          assert s[i] == s[..7][i];
        }
      }
    }
  }

  /** Colour and alpha draws of 0 give "#4cede10", which is not a colour. */
  lemma FillAsWrittenCounterexample()
    ensures AlphaByte(0.0) == 0
    ensures FillAsWritten(0.0, 0.0) == "#4cede10"
    ensures !IsCssHexColour(FillAsWritten(0.0, 0.0))
  {
    FillAsWrittenMalformed(0.0, 0.0);
  }

  /**
   * The fill with the alpha byte padded to two digits: always an
   * eight-digit CSS colour, the palette pick followed by a suffix that parses
   * back to the alpha byte and agrees with the as-written suffix whenever
   * that one already has two digits.
   */
  function Fill(c: real, u: real): (s: string)
    requires Unit(u)
    ensures |s| == 9 && IsCssHexColour(s)
    ensures s[..7] == PaletteColour(c)
    ensures ParseHex(s[7..]) == Some(AlphaByte(u))
    ensures 16 <= AlphaByte(u) ==> s == FillAsWritten(c, u)
  {
    var p := PaletteColour(c);
    var h := Hex2(AlphaByte(u));
    var s := p + h;
    assert s[7..] == h;
    assert forall i :: 1 <= i < 7 ==> s[i] == p[i];
    assert forall i :: 7 <= i < 9 ==> s[i] == h[i - 7];
    s
  }

  /**
   * A new particle built from what its constructor is given: it starts at its
   * anchor; its radius lies in [0, min(speed, windowSize * 0.005)], strictly
   * below the bound when the bound is positive and exactly 0 when the pointer
   * is at rest; the oscillation parameters lie in their ranges. The fill is
   * built as the constructor builds it: the palette colour followed by the
   * unpadded alpha suffix, so it is a CSS colour exactly when the alpha byte
   * needs two digits.
   */
  function NewPoint(b: Birth): (p: Point)
    requires b.InRange()
    ensures p.anchor == b.anchor && p.pos == b.anchor
    ensures 0.0 <= p.radius <= RadiusBound(b.speed, b.windowSize)
    ensures 0.0 < RadiusBound(b.speed, b.windowSize) ==> p.radius < RadiusBound(b.speed, b.windowSize)
    ensures b.speed == 0.0 ==> p.radius == 0.0
    ensures 0.0 <= p.seed < 1000.0
    ensures 0.05 <= p.freq < 0.15
    ensures 0.0 <= p.amplitude < 10.0
    ensures 8 <= |p.fill| && p.fill[..7] == PaletteColour(b.draws.colour)
    ensures ParseHex(p.fill[7..]) == Some(AlphaByte(b.draws.alpha))
    ensures |p.fill| == 8 <==> AlphaByte(b.draws.alpha) < 16
    ensures IsCssHexColour(p.fill) <==> 16 <= AlphaByte(b.draws.alpha)
  {
    var d := b.draws;
    var bound := RadiusBound(b.speed, b.windowSize);
    assert 0.0 <= bound;
    assert b.speed == 0.0 ==> bound == 0.0;
    var radius := Scale(d.radius, bound);
    FillAsWrittenMalformed(d.colour, d.alpha);
    var fill := FillAsWritten(d.colour, d.alpha);
    Point(b.anchor, b.anchor, radius, d.seed * 1000.0, 0.05 + d.freq * 0.1, d.amplitude * 10.0, fill)
  }

  /**
   * The constructor with the alpha padded to two digits: the same particle
   * except for the fill, which is always an eight-digit CSS colour and is the
   * constructor's own fill whenever that one is well formed.
   */
  function NewPointPadded(b: Birth): (p: Point)
    requires b.InRange()
    ensures p.(fill := NewPoint(b).fill) == NewPoint(b)
    ensures |p.fill| == 9 && IsCssHexColour(p.fill) && p.fill[..7] == PaletteColour(b.draws.colour)
    ensures ParseHex(p.fill[7..]) == Some(AlphaByte(b.draws.alpha))
    ensures IsCssHexColour(NewPoint(b).fill) ==> p == NewPoint(b)
  {
    FillAsWrittenMalformed(b.draws.colour, b.draws.alpha);
    NewPoint(b).(fill := Fill(b.draws.colour, b.draws.alpha))
  }

  /** The worked case: a pointer at rest spawns points of radius 0, whatever the window. */
  lemma RestingPointerSpawnsDots(anchor: Vec, windowSize: real, d: Draws)
    requires 0.0 <= windowSize && d.InRange()
    ensures NewPoint(Birth(anchor, 0.0, windowSize, d)).radius == 0.0
  {
  }

  /** The worked case of the finding: a particle whose draws are all 0 gets the fill "#4cede10". */
  lemma ZeroDrawsFill(anchor: Vec)
    ensures NewPoint(Birth(anchor, 0.0, 1000.0, Draws(0.0, 0.0, 0.0, 0.0, 0.0, 0.0))).fill == "#4cede10"
    ensures NewPointPadded(Birth(anchor, 0.0, 1000.0, Draws(0.0, 0.0, 0.0, 0.0, 0.0, 0.0))).fill == "#4cede100"
  {
    FillAsWrittenCounterexample();
    assert AlphaByte(0.0) == 0;
    assert Hex2(0) == ['0'] + ToHex(0);
  }

  /** Scaling a non-negative bound by a draw in [0, 1) stays within [0, bound). */
  function Scale(u: real, b: real): (r: real)
    requires Unit(u) && 0.0 <= b
    ensures 0.0 <= r <= b
    ensures 0.0 < b ==> r < b
    ensures b == 0.0 ==> r == 0.0
  {
    assert b - u * b == (1.0 - u) * b;
    ProductSign(u, b);
    ProductSign(1.0 - u, b);
    u * b
  }
}
