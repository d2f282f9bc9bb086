/**
 * The page background (`Background.updateWords`): the container is refilled
 * with enough clones of its word tile to cover its height plus two tiles of
 * overscan, each clone tagged with its index and two random style factors.
 */
module Background {

  /** One clone, described by the custom properties it is given. */
  datatype Tile = Tile(index: nat, position: real, duration: real)

  /** Extra tiles beyond those needed to cover the height. */
  const Overscan: nat := 2

  /**
   * `Math.ceil(height / size) + 2` for a positive tile height: the smallest
   * number of tiles whose height covers the container, plus the overscan.
   */
  function TileCount(height: nat, size: nat): (total: nat)
    requires 0 < size
    ensures Overscan <= total
    ensures (total - Overscan) * size >= height
    ensures total == Overscan || (total - Overscan - 1) * size < height
  {
    var q := (height + size - 1) / size;
    assert q * size <= height + size - 1 < (q + 1) * size;
    q + Overscan
  }

  /**
   * The clone at index i: tagged with its index, its position factor the draw
   * `draw(2 * i)` and its duration factor twice the draw `draw(2 * i + 1)`, so
   * draws in [0, 1) give a position in [0, 1) and a duration in [0, 2).
   */
  function Clone(i: nat, draw: nat -> real): (t: Tile)
    ensures t.index == i
    ensures 0.0 <= draw(2 * i) < 1.0 ==> 0.0 <= t.position < 1.0
    ensures 0.0 <= draw(2 * i + 1) < 1.0 ==> 0.0 <= t.duration < 2.0
  {
    Tile(i, draw(2 * i), draw(2 * i + 1) * 2.0)
  }

  /**
   * `updateWords` on a container holding `content`, of height `height`,
   * whose template tile is `size` high. A tile of height 0 leaves the
   * container untouched. Otherwise the container ends up holding exactly
   * `TileCount(height, size)` clones in index order, clone i carrying index
   * i, a position factor in [0, 1) and a duration factor in [0, 2).
   */
  method UpdateWords(content: seq<Tile>, height: nat, size: nat, draw: nat -> real) returns (r: seq<Tile>)
    requires forall k :: 0.0 <= draw(k) < 1.0
    ensures size == 0 ==> r == content
    ensures 0 < size ==> |r| == TileCount(height, size)
    ensures 0 < size ==> forall i :: 0 <= i < |r| ==> r[i].index == i
    ensures 0 < size ==> forall i :: 0 <= i < |r| ==> 0.0 <= r[i].position < 1.0 && 0.0 <= r[i].duration < 2.0
    ensures 0 < size ==> forall i :: 0 <= i < |r| ==> r[i].position == draw(2 * i) && r[i].duration == 2.0 * draw(2 * i + 1)
  {
    r := content;
    if size > 0 {
      var total := TileCount(height, size);
      r := [];
      var i := 0;
      while i < total
        invariant 0 <= i <= total
        invariant |r| == i
        invariant forall j :: 0 <= j < i ==> r[j] == Clone(j, draw)
      {
        r := r + [Clone(i, draw)];
        i := i + 1;
      }
      assert forall j :: 0 <= j < |r| ==> 0.0 <= draw(2 * j) < 1.0 && 0.0 <= draw(2 * j + 1) < 1.0;
    }
  }

  /** The worked case: a 500-pixel container of 50-pixel tiles gets 12 tiles. */
  lemma TileCountExample()
    ensures TileCount(500, 50) == 12
    ensures TileCount(0, 50) == 2
    ensures TileCount(501, 50) == 13
  {
  }

  /** A taller container never gets fewer tiles. */
  lemma TileCountMonotone(h1: nat, h2: nat, size: nat)
    requires 0 < size && h1 <= h2
    ensures TileCount(h1, size) <= TileCount(h2, size)
  {
  }
}
