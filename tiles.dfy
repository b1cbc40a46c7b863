/**
 * The three tile kinds of the game, the operator each applies to the running
 * sum of a path, and the per-frame steps of the two tile animations.
 */
module Tiles {

  /** Side of a tile and height of a grid row, in canvas units. */
  const TILE_SIZE: int := 100

  /** Number of columns, and of rows, of the grid. */
  const GRID_SIZE: int := 5

  /** Amount by which a vanishing tile shrinks, and a falling tile moves, per frame. */
  const STEP: int := 10

  /** What `getType()` reports. */
  datatype Kind = ADD | MULTIPLIER | SQUARE

  /** The operator a tile applies to the running sum: `Tile`, `MultiplierTile`, `SquareTile`. */
  datatype Op = Add(val: int) | Mult(multiplier: int) | Square

  /**
   * `applyOp(x)` of the three tile classes. An Adder can be undone by
   * subtracting its value, a Square never yields a negative sum, and neither
   * arithmetic tile can move a sum of zero.
   */
  function ApplyOp(op: Op, x: int): (r: int)
    ensures op.Add? ==> r - op.val == x
    ensures op.Square? ==> r >= 0 && (r == 0 <==> x == 0)
    ensures op == Mult(-1) ==> r + x == 0
    ensures !op.Add? && x == 0 ==> r == 0
  {
    match op
    case Add(v) => x + v
    case Mult(m) => x * m
    case Square => x * x
  }

  function KindOf(op: Op): (k: Kind)
    ensures k == ADD <==> op.Add?
    ensures k == MULTIPLIER <==> op.Mult?
  {
    match op
    case Add(_) => ADD
    case Mult(_) => MULTIPLIER
    case Square => SQUARE
  }

  /**
   * A tile on the grid: its operator, which never changes, and its view
   * state. `(cx, cy)` is its centre, `drop` the distance still to fall and
   * `tileSize` its side while it collapses.
   */
  datatype Tile = Tile(op: Op, cx: int, cy: int, highlight: bool, drop: int, tileSize: int, showText: bool)

  function Abs(x: int): int
  {
    if x < 0 then -x else x
  }

  /**
   * The point `(x, y)` lies in the tile's square box, edges included: the test
   * of `getTileForPoint`, `|x - cx| <= tileSize / 2` in both directions.
   */
  predicate Hit(t: Tile, x: int, y: int)
  {
    2 * Abs(x - t.cx) <= t.tileSize && 2 * Abs(y - t.cy) <= t.tileSize
  }

  /** The state every tile constructor gives a new tile. */
  function NewTile(op: Op, cx: int, cy: int): Tile
  {
    Tile(op, cx, cy, false, 0, TILE_SIZE, true)
  }

  /** What one frame of the collapse animation does to a tile on the path. */
  function Collapse(t: Tile): (t': Tile)
    ensures t'.op == t.op && t'.cx == t.cx && t'.cy == t.cy && t'.drop == t.drop && t'.highlight == t.highlight
    ensures t.tileSize > 0 ==> t'.tileSize == t.tileSize - STEP && !t'.showText
    ensures t.tileSize <= 0 ==> t' == t
  {
    if t.tileSize > 0 then t.(showText := false, tileSize := t.tileSize - STEP) else t
  }

  /** What one frame of the drop animation does to a tile. */
  function Fall(t: Tile): (t': Tile)
    ensures t'.cy + t'.drop == t.cy + t.drop
    ensures t'.op == t.op && t'.cx == t.cx && t'.tileSize == t.tileSize && t'.highlight == t.highlight && t'.showText == t.showText
    ensures t.drop > 0 ==> t'.drop == t.drop - STEP
    ensures t.drop <= 0 ==> t' == t
    ensures 0 <= t.drop && t.drop % STEP == 0 ==> 0 <= t'.drop && t'.drop % STEP == 0
  {
    if t.drop > 0 then t.(drop := t.drop - STEP, cy := t.cy + STEP) else t
  }

  /** The tile after `n` collapse frames. */
  function CollapseFrames(t: Tile, n: nat): Tile
    decreases n
  {
    if n == 0 then t else CollapseFrames(Collapse(t), n - 1)
  }

  /** The tile after `n` drop frames. */
  function FallFrames(t: Tile, n: nat): Tile
    decreases n
  {
    if n == 0 then t else FallFrames(Fall(t), n - 1)
  }

  /**
   * A tile whose size is a non-negative multiple of STEP shrinks by STEP per
   * frame and lands exactly on zero: after `n` frames its size is
   * `tileSize - STEP * n`, or zero once that would be negative.
   */
  lemma {:induction false} CollapseLands(t: Tile, n: nat)
    requires t.tileSize >= 0 && t.tileSize % STEP == 0
    ensures CollapseFrames(t, n).tileSize == if STEP * n <= t.tileSize then t.tileSize - STEP * n else 0
    ensures CollapseFrames(t, n).op == t.op
    decreases n
  {
    if n > 0 {
      CollapseLands(Collapse(t), n - 1);
    }
  }

  /**
   * A tile whose drop is a non-negative multiple of STEP falls STEP per frame,
   * keeps `cy + drop` fixed and lands exactly on its target: after `n` frames
   * its drop is `drop - STEP * n`, or zero once that would be negative.
   */
  lemma {:induction false} FallLands(t: Tile, n: nat)
    requires t.drop >= 0 && t.drop % STEP == 0
    ensures FallFrames(t, n).cy + FallFrames(t, n).drop == t.cy + t.drop
    ensures FallFrames(t, n).drop == if STEP * n <= t.drop then t.drop - STEP * n else 0
    ensures FallFrames(t, n).op == t.op
    decreases n
  {
    if n > 0 {
      FallLands(Fall(t), n - 1);
    }
  }
}
