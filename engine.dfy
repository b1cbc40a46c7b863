/**
 * The game's mutable state: the tile grid, the path of the current gesture
 * and its sum, the generation history, the score and the animation in
 * progress, with the input handlers and the animation frames that change it.
 */
module Engine {
  import opened Options
  import opened Tiles
  import opened Paths
  import opened Generation
  import opened Compaction
  import opened Animation
  import opened Refill

  /** The animation in progress, that is, the frame callback that is scheduled next. */
  datatype Phase = Idle | Vanishing | Translating | Fidgeting

  /** How far a fidgeting tile moves per frame, in pixels. */
  const FIDGET_STEP := 3

  class Game {
    /** Top-left corner of the grid on the canvas. */
    const gridX: int
    const gridY: int

    /** `grid.grid[col][row]`: column-major, `None` for an empty cell. */
    const grid: array2<Option<Tile>>

    /** `currentPath` and `currentSum`. */
    var path: seq<Coord>
    var sum: int

    /** Generation history: `tick`, `lastGen.MULTIPLIER`, `lastGen.SQUARE`. */
    var tick: int
    var lastGenMult: int
    var lastGenSquare: int

    var animationRunning: bool
    var phase: Phase

    /** `currentPoints`, `inPath` and `enabled`. */
    var points: int
    var inPath: bool
    var enabled: bool

    /** The tile that fidgets, its resting abscissa and the direction of its next move. */
    var fidgetCoords: Coord
    var fidgetOrigX: int
    var fidgetToggle: bool

    function CentreX(col: int): int
    {
      gridX + col * TILE_SIZE + TILE_SIZE / 2
    }

    function CentreY(row: int): int
    {
      gridY + row * TILE_SIZE + TILE_SIZE / 2
    }

    ghost predicate Shaped()
    {
      grid.Length0 == GRID_SIZE && grid.Length1 == GRID_SIZE
    }

    /** One column of the grid, top row first. */
    ghost function Column(c: int): (col: seq<Option<Tile>>)
      reads grid
      requires 0 <= c < grid.Length0
      ensures |col| == grid.Length1
      ensures forall r :: 0 <= r < grid.Length1 ==> col[r] == grid[c, r]
    {
      seq(grid.Length1, r requires 0 <= r < grid.Length1 reads grid => grid[c, r])
    }

    /** The grid as its columns, left to right. */
    ghost function Cells(): (cols: seq<seq<Option<Tile>>>)
      reads grid
      ensures |cols| == grid.Length0
      ensures forall c :: 0 <= c < grid.Length0 ==> cols[c] == Column(c)
    {
      seq(grid.Length0, c requires 0 <= c < grid.Length0 reads grid => Column(c))
    }

    /** The grid and the generation history: what `generateTile` reads and writes. */
    ghost function Now(): Board
      reads this, grid
    {
      Board(Cells(), tick, lastGenMult, lastGenSquare)
    }

    /** The grid holds `cells`, cell by cell. */
    lemma CellsAre(cells: seq<seq<Option<Tile>>>)
      requires Shaped() && Sized(cells)
      requires forall c, r :: 0 <= c < GRID_SIZE && 0 <= r < GRID_SIZE ==> grid[c, r] == cells[c][r]
      ensures Cells() == cells
    {
      forall c | 0 <= c < GRID_SIZE
        ensures Cells()[c] == cells[c]
      {
      }
    }

    /** A grid that keeps every cell's operator keeps its census. */
    lemma OpsKept(before: seq<seq<Option<Tile>>>)
      requires Shaped() && Sized(before)
      requires forall c, r :: 0 <= c < GRID_SIZE && 0 <= r < GRID_SIZE ==> SameOp(before[c][r], grid[c, r])
      ensures GridCensus(Cells()) == GridCensus(before)
    {
      GridCensusSameOps(before, Cells());
    }

    /** The grid after a store of `x` in cell `(c, r)` of the grid `before`. */
    lemma Stored(before: seq<seq<Option<Tile>>>, c: int, r: int, x: Option<Tile>)
      requires Shaped() && Sized(before) && 0 <= c < GRID_SIZE && 0 <= r < GRID_SIZE && grid[c, r] == x
      requires forall c', r' :: 0 <= c' < GRID_SIZE && 0 <= r' < GRID_SIZE && (c' != c || r' != r) ==> grid[c', r'] == before[c'][r']
      ensures Cells() == Put(before, c, r, x)
    {
      CellsAre(Put(before, c, r, x));
    }

    /** At most one Multiplier and at most one Square on the grid. */
    ghost predicate ScarceGrid()
      reads grid
    {
      Scarce(GridCensus(Cells()))
    }

    /**
     * The counting loops of `generateTile` (game.js:376-398): the census of
     * every cell, empty cells skipped.
     */
    method CountTiles() returns (census: Census)
      requires Shaped()
      ensures census == GridCensus(Cells())
    {
      census := Census(0, 0, 0, 0);
      ghost var cols := Cells();
      var col := 0;
      while col < GRID_SIZE
        invariant 0 <= col <= GRID_SIZE
        invariant census == GridCensus(cols[..col])
      {
        census := CountColumn(col, census);
        assert cols[..col + 1][..col] == cols[..col];
        col := col + 1;
      }
      assert cols[..GRID_SIZE] == cols;
    }

    /** The inner counting loop of `generateTile`: column `col` added to `census`. */
    method CountColumn(col: int, census: Census) returns (total: Census)
      requires Shaped() && 0 <= col < GRID_SIZE
      ensures total == Plus(census, ColumnCensus(Column(col)))
    {
      ghost var column := Column(col);
      total := census;
      var row := 0;
      while row < GRID_SIZE
        invariant 0 <= row <= GRID_SIZE
        invariant total == Plus(census, ColumnCensus(column[..row]))
      {
        assert column[..row + 1][..row] == column[..row];
        TallyPlus(census, ColumnCensus(column[..row]), column[row]);
        total := Tally(total, grid[col, row]);
        row := row + 1;
      }
      assert column[..GRID_SIZE] == column;
    }

    /**
     * `generateTile(cx, cy)` for the two values `d` of `Math.random()`: one
     * tick passes, the grid as it is now is counted, and `Decide` chooses the
     * tile and the new `lastGen` entries.
     */
    method GenerateTile(cx: int, cy: int, d: Draw) returns (t: Tile)
      requires Shaped() && ValidDraw(d)
      modifies this`tick, this`lastGenMult, this`lastGenSquare
      ensures tick == old(tick) + 1 && (old(Bookkeeping()) ==> Bookkeeping())
      ensures (Now(), t) == Generate(old(Now()), cx, cy, d)
    {
      tick := tick + 1;
      var census := CountTiles();
      var g := Decide(census, tick, lastGenMult, lastGenSquare, d);
      lastGenMult, lastGenSquare := g.lastMult, g.lastSquare;
      t := NewTile(g.op, cx, cy);
    }

    /** `a` comes before `b` in the column-major scan of `getTileForPoint`. */
    ghost predicate Before(a: Coord, b: Coord)
    {
      a.col < b.col || (a.col == b.col && a.row < b.row)
    }

    ghost predicate AllLive()
      reads grid
    {
      forall c, r :: 0 <= c < grid.Length0 && 0 <= r < grid.Length1 ==> grid[c, r].Some?
    }

    /** The box of the tile at `p` contains the point and no earlier box in the scan does. */
    ghost predicate FirstHit(p: Coord, x: int, y: int)
      reads grid
      requires Shaped() && AllLive()
    {
      InGrid(p) && Hit(grid[p.col, p.row].value, x, y) &&
      forall c, r :: 0 <= c < GRID_SIZE && 0 <= r < GRID_SIZE && Before(Coord(c, r), p) ==> !Hit(grid[c, r].value, x, y)
    }

    /**
     * `getTileForPoint(x, y)` (game.js:191-204): the first cell, in
     * column-major order, whose box contains the point, or `None` when no box
     * contains it.
     */
    method GetTileForPoint(x: int, y: int) returns (found: Option<Coord>)
      requires Shaped() && AllLive()
      ensures found.Some? ==> FirstHit(found.value, x, y)
      ensures found.None? <==> forall c, r :: 0 <= c < GRID_SIZE && 0 <= r < GRID_SIZE ==> !Hit(grid[c, r].value, x, y)
    {
      var col := 0;
      while col < GRID_SIZE
        invariant 0 <= col <= GRID_SIZE
        invariant forall c, r :: 0 <= c < col && 0 <= r < GRID_SIZE ==> !Hit(grid[c, r].value, x, y)
      {
        var row := 0;
        while row < GRID_SIZE
          invariant 0 <= row <= GRID_SIZE
          invariant forall c, r :: 0 <= c < col && 0 <= r < GRID_SIZE ==> !Hit(grid[c, r].value, x, y)
          invariant forall r :: 0 <= r < row ==> !Hit(grid[col, r].value, x, y)
        {
          var t := grid[col, row].value;
          if Hit(t, x, y) {
            return Some(Coord(col, row));
          }
          row := row + 1;
        }
        col := col + 1;
      }
      return None;
    }

    ghost predicate PlacedAt(t: Tile, c: int, r: int)
    {
      t.cx == CentreX(c) && t.cy == CentreY(r) && t.drop == 0
    }

    /** A tile at rest in cell `(c, r)`: centred there, nothing left to fall, full size. */
    ghost predicate SettledAt(t: Tile, c: int, r: int)
    {
      PlacedAt(t, c, r) && t.tileSize == TILE_SIZE
    }

    /** A tile falling into cell `(c, r)`: once its `drop` is spent it is centred there. */
    ghost predicate LandingAt(t: Tile, c: int, r: int)
    {
      t.cx == CentreX(c) && t.cy + t.drop == CentreY(r) &&
      0 <= t.drop && t.drop % STEP == 0 && t.tileSize == TILE_SIZE
    }

    ghost predicate AllSettled()
      reads grid
      requires Shaped()
    {
      forall c, r :: 0 <= c < GRID_SIZE && 0 <= r < GRID_SIZE ==>
        grid[c, r].Some? && SettledAt(grid[c, r].value, c, r)
    }

    ghost predicate AllLanding()
      reads grid
      requires Shaped()
    {
      forall c, r :: 0 <= c < GRID_SIZE && 0 <= r < GRID_SIZE ==>
        grid[c, r].Some? && LandingAt(grid[c, r].value, c, r)
    }

    /** The operators of the tiles at the coordinates `p`, in order. */
    ghost function OpsAt(p: seq<Coord>): (ops: seq<Op>)
      reads grid
      requires Shaped() && AllLive() && forall i :: 0 <= i < |p| ==> InGrid(p[i])
      ensures |ops| == |p|
      ensures forall i :: 0 <= i < |p| ==> InGrid(p[i]) && ops[i] == grid[p[i].col, p[i].row].value.op
      decreases |p|
    {
      if p == [] then []
      else
        var last := p[|p| - 1];
        assert InGrid(last);
        OpsAt(p[..|p| - 1]) + [grid[last.col, last.row].value.op]
    }

    /** The operators of the path's tiles, in acceptance order. */
    ghost function PathOps(): seq<Op>
      reads this, grid
      requires Shaped() && WellFormed(path) && AllLive()
    {
      OpsAt(path)
    }

    /** Side shared by the tiles of a vanishing path. */
    ghost function VanishSize(): int
      reads this, grid
      requires Shaped() && WellFormed(path) && AllLive()
    {
      if path == [] then 0 else grid[path[0].col, path[0].row].value.tileSize
    }

    /**
     * The grid while a path vanishes: every tile in place, the path's tiles
     * all of one size, a multiple of STEP, the others of full size.
     */
    ghost predicate ShrinkingPath()
      reads this, grid
      requires Shaped() && WellFormed(path)
    {
      AllLive() &&
      (forall c, r :: 0 <= c < GRID_SIZE && 0 <= r < GRID_SIZE ==>
        PlacedAt(grid[c, r].value, c, r) &&
        grid[c, r].value.tileSize == if Coord(c, r) in path then VanishSize() else TILE_SIZE) &&
      0 <= VanishSize() <= TILE_SIZE && VanishSize() % STEP == 0
    }

    /**
     * The grid while a tile fidgets: at rest, except for the fidgeting tile's
     * abscissa, which is its resting one or FIDGET_STEP to the right of it.
     */
    ghost predicate FidgetFits()
      reads this, grid
      requires Shaped()
    {
      forall c, r :: 0 <= c < GRID_SIZE && 0 <= r < GRID_SIZE ==>
        grid[c, r].Some? && grid[c, r].value.cy == CentreY(r) && grid[c, r].value.drop == 0 &&
        grid[c, r].value.tileSize == TILE_SIZE &&
        grid[c, r].value.cx == if Coord(c, r) != fidgetCoords then CentreX(c) else fidgetOrigX + (if fidgetToggle then 0 else FIDGET_STEP)
    }

    /** The invariant of the scalar state. */
    ghost predicate Bookkeeping()
      reads this
    {
      WellFormed(path) && points >= 0 &&
      lastGenMult <= tick && lastGenSquare <= tick &&
      (animationRunning <==> phase != Idle) &&
      (phase == Vanishing ==> sum == 0) &&
      (phase == Translating || phase == Fidgeting ==> path == [] && sum == 0) &&
      (phase == Fidgeting ==> InGrid(fidgetCoords) && fidgetOrigX == CentreX(fidgetCoords.col)) &&
      (!enabled ==> sum == 0 && !inPath) &&
      (!enabled && phase != Vanishing ==> path == [])
    }

    /**
     * The grid at rest with a gesture `p` in progress: every tile settled,
     * the path starting with an Adder and `s` the fold of its operators.
     */
    ghost predicate IdleGrid(p: seq<Coord>, s: int)
      reads grid
      requires Shaped() && WellFormed(p)
    {
      AllLive() && AllSettled() &&
      (p != [] ==> grid[p[0].col, p[0].row].value.op.Add?) &&
      s == PathSum(OpsAt(p))
    }

    /** Accepting a coordinate keeps the gesture well formed and its sum the fold of its operators. */
    lemma IdleGridExtend(p: seq<Coord>, s: int, c: Coord)
      requires Shaped() && WellFormed(p) && IdleGrid(p, s) && InGrid(c) && Accepts(p, c)
      requires p == [] ==> grid[c.col, c.row].value.op.Add?
      ensures WellFormed(p + [c]) && IdleGrid(p + [c], ApplyOp(grid[c.col, c.row].value.op, s))
    {
      var op := grid[c.col, c.row].value.op;
      ExtendKeepsWellFormed(p, c);
      PathSumSnoc(OpsAt(p), op);
      assert (p + [c])[..|p|] == p;
      assert OpsAt(p + [c]) == OpsAt(p) + [op];
      if p != [] {
        assert (p + [c])[0] == p[0];
      }
    }

    /** A settled grid with no gesture in progress is a valid idle game. */
    lemma SettledValid()
      requires Shaped() && Bookkeeping() && phase == Idle && path == [] && sum == 0 && AllSettled() && ScarceGrid()
      ensures Valid()
    {
      assert OpsAt(path) == [];
    }

    lemma LandingValid()
      requires Shaped() && Bookkeeping() && phase == Translating && AllLanding() && ScarceGrid()
      ensures Valid()
    {
    }

    /** What the grid looks like in each phase. */
    ghost predicate GridFits()
      reads this, grid
      requires Shaped() && Bookkeeping()
    {
      match phase
      case Idle => IdleGrid(path, sum)
      case Vanishing => ShrinkingPath()
      case Translating => AllLanding()
      case Fidgeting => FidgetFits()
    }

    /**
     * The game's invariant: between two events the path is well formed; at
     * rest the grid is full, every tile at the centre of its cell, the path
     * starts with an Adder and the sum is the fold of its operators. There
     * is never more than one Multiplier or one Square on the grid.
     */
    ghost predicate Valid()
      reads this, grid
    {
      Shaped() && Bookkeeping() && GridFits() && ScarceGrid()
    }

    /** The canvas area the grid covers, edges included. */
    ghost predicate InArea(x: int, y: int)
    {
      gridX <= x <= gridX + GRID_SIZE * TILE_SIZE && gridY <= y <= gridY + GRID_SIZE * TILE_SIZE
    }

    /** The cell a settled grid reports for an offset `d` from its edge: shared edges go to the lower index. */
    function CellIndex(d: int): int
    {
      if d <= 0 then 0 else (d - 1) / TILE_SIZE
    }

    function PointCell(x: int, y: int): Coord
    {
      Coord(CellIndex(x - gridX), CellIndex(y - gridY))
    }

    /**
     * On a grid at rest every point of the grid's area lies in some box, and
     * the first such box is the one `PointCell` computes.
     */
    lemma SettledLookup(x: int, y: int)
      requires Shaped() && AllSettled() && InArea(x, y)
      ensures AllLive() && FirstHit(PointCell(x, y), x, y)
    {
      var p := PointCell(x, y);
      assert 0 <= p.col < GRID_SIZE && 0 <= p.row < GRID_SIZE;
      forall c, r | 0 <= c < GRID_SIZE && 0 <= r < GRID_SIZE && Before(Coord(c, r), p)
        ensures !Hit(grid[c, r].value, x, y)
      {
        if c < p.col {
          assert x - gridX > c * TILE_SIZE + TILE_SIZE;
        } else {
          assert y - gridY > r * TILE_SIZE + TILE_SIZE;
        }
      }
    }

    lemma FirstHitUnique(p: Coord, q: Coord, x: int, y: int)
      requires Shaped() && AllLive() && FirstHit(p, x, y) && FirstHit(q, x, y)
      ensures p == q
    {
    }

    /**
     * `maybeAddToPath(coords)` (game.js:239-269): an unresolved point, a
     * coordinate already on the path, or one that touches no member of a
     * non-empty path is rejected and nothing changes; otherwise the coordinate
     * is appended and its tile's operator is applied to the sum. The caller
     * has already refused a first tile that is not an Adder.
     */
    method MaybeAddToPath(coords: Option<Coord>) returns (added: bool)
      requires Valid() && phase == Idle && enabled
      requires coords.Some? ==> InGrid(coords.value)
      requires coords.Some? && path == [] ==> grid[coords.value.col, coords.value.row].value.op.Add?
      modifies this`path, this`sum
      ensures Valid()
      ensures added <==> coords.Some? && Accepts(old(path), coords.value)
      ensures path == if added then old(path) + [coords.value] else old(path)
      ensures sum == if added then ApplyOp(grid[coords.value.col, coords.value.row].value.op, old(sum)) else old(sum)
    {
      if coords.None? {
        return false;
      }
      var c := coords.value;
      var i := 0;
      while i < |path|
        invariant 0 <= i <= |path|
        invariant forall k :: 0 <= k < i ==> path[k] != c
      {
        if path[i].row == c.row && path[i].col == c.col {
          return false;
        }
        i := i + 1;
      }
      if |path| == 0 {
        Append(c);
        return true;
      }
      i := 0;
      while i < |path|
        invariant 0 <= i <= |path|
        invariant forall k :: 0 <= k < i ==> !Touches(path[k], c)
      {
        if Touches(path[i], c) {
          Append(c);
          return true;
        }
        i := i + 1;
      }
      return false;
    }

    /** The two assignments of an accepted coordinate: push it, apply its operator. */
    method Append(c: Coord)
      requires Valid() && phase == Idle && enabled && InGrid(c) && Accepts(path, c)
      requires path == [] ==> grid[c.col, c.row].value.op.Add?
      modifies this`path, this`sum
      ensures Valid()
      ensures path == old(path) + [c]
      ensures sum == ApplyOp(grid[c.col, c.row].value.op, old(sum))
    {
      IdleGridExtend(path, sum, c);
      path := path + [c];
      sum := ApplyOp(grid[c.col, c.row].value.op, sum);
    }

    /** `clearHighlights` (game.js:211-218), without the rendering. */
    method ClearHighlights()
      requires Valid() && phase == Idle
      modifies grid
      ensures Valid()
      ensures forall c, r :: 0 <= c < GRID_SIZE && 0 <= r < GRID_SIZE ==>
        grid[c, r] == Some(old(grid[c, r].value).(highlight := false))
    {
      ghost var ops := OpsAt(path);
      ghost var before := Cells();
      var col := 0;
      while col < GRID_SIZE
        invariant 0 <= col <= GRID_SIZE
        invariant forall c, r :: 0 <= c < GRID_SIZE && 0 <= r < GRID_SIZE ==>
          grid[c, r] == if c < col then Some(old(grid[c, r].value).(highlight := false)) else old(grid[c, r])
      {
        ClearColumnHighlights(col);
        col := col + 1;
      }
      assert OpsAt(path) == ops;
      assert forall c, r :: 0 <= c < GRID_SIZE && 0 <= r < GRID_SIZE ==> before[c][r] == old(grid[c, r]);
      OpsKept(before);
    }

    /** The inner loop of `clearHighlights`: every tile of column `col` loses its highlight. */
    method ClearColumnHighlights(col: int)
      requires Shaped() && AllLive() && 0 <= col < GRID_SIZE
      modifies grid
      ensures AllLive()
      ensures forall c, r :: 0 <= c < GRID_SIZE && 0 <= r < GRID_SIZE ==>
        grid[c, r] == if c == col then Some(old(grid[c, r].value).(highlight := false)) else old(grid[c, r])
    {
      var row := 0;
      while row < GRID_SIZE
        invariant 0 <= row <= GRID_SIZE
        invariant forall c, r :: 0 <= c < GRID_SIZE && 0 <= r < GRID_SIZE ==>
          grid[c, r] == if c == col && r < row then Some(old(grid[c, r].value).(highlight := false)) else old(grid[c, r])
      {
        grid[col, row] := Some(grid[col, row].value.(highlight := false));
        row := row + 1;
      }
    }

    /** `highlightTile(ctx, col, row)` (game.js:206-209), without the rendering. */
    method HighlightTile(col: int, row: int)
      requires Valid() && phase == Idle && InGrid(Coord(col, row))
      modifies grid
      ensures Valid()
      ensures grid[col, row] == Some(old(grid[col, row].value).(highlight := true))
      ensures forall c, r :: 0 <= c < GRID_SIZE && 0 <= r < GRID_SIZE && (c != col || r != row) ==> grid[c, r] == old(grid[c, r])
    {
      ghost var ops := OpsAt(path);
      ghost var before := Cells();
      grid[col, row] := Some(grid[col, row].value.(highlight := true));
      assert OpsAt(path) == ops;
      assert forall c, r :: 0 <= c < GRID_SIZE && 0 <= r < GRID_SIZE ==> before[c][r] == old(grid[c, r]);
      OpsKept(before);
    }

    /**
     * One frame of `translateFrame` (game.js:345-365): every tile with some
     * way left to fall moves STEP down, and when none had any the animation
     * ends. With `GridFallFramesShorten` this makes the animation stop after
     * exactly `GridMaxDrop / STEP` moving frames.
     */
    method TranslateFrame()
      requires Valid() && phase == Translating
      modifies this`phase, this`animationRunning, grid
      ensures Valid()
      ensures Cells() == GridFall(old(Cells()))
      ensures phase == Idle <==> GridMaxDrop(old(Cells())) == 0
      ensures phase != Idle ==> phase == Translating
    {
      ghost var before := Cells();
      var allDone := FallCells();
      assert AllGrounded(before) by {
        forall c | 0 <= c < GRID_SIZE
          ensures Grounded(before[c])
        {
          assert forall r :: 0 <= r < GRID_SIZE ==> before[c][r] == old(grid[c, r]);
        }
      }
      assert forall c, r :: 0 <= c < GRID_SIZE && 0 <= r < GRID_SIZE ==> before[c][r] == old(grid[c, r]);
      FallStep(before, Cells(), allDone);
      FallCensus(before);
      if allDone {
        EndTranslate();
      } else {
        LandingValid();
      }
    }

    /** The frame of `translateFrame` that finds nothing left to fall (game.js:362-364): the grid is at rest again. */
    method EndTranslate()
      requires Shaped() && Bookkeeping() && phase == Translating && AllSettled() && ScarceGrid()
      modifies this`phase, this`animationRunning
      ensures Valid() && phase == Idle
    {
      animationRunning := false;
      phase := Idle;
      SettledValid();
    }

    /** The loops of `translateFrame`: every tile falls once; `allDone` when none had any way left. */
    method FallCells() returns (allDone: bool)
      requires Shaped() && AllLanding()
      modifies grid
      ensures AllLanding() && (allDone ==> AllSettled())
      ensures forall c, r :: 0 <= c < GRID_SIZE && 0 <= r < GRID_SIZE ==> grid[c, r] == Some(Fall(old(grid[c, r].value)))
      ensures allDone <==> forall c, r :: 0 <= c < GRID_SIZE && 0 <= r < GRID_SIZE ==> old(grid[c, r].value.drop) <= 0
    {
      allDone := true;
      var col := 0;
      while col < GRID_SIZE
        invariant 0 <= col <= GRID_SIZE
        invariant forall c, r :: 0 <= c < GRID_SIZE && 0 <= r < GRID_SIZE ==>
          grid[c, r] == if c < col then Some(Fall(old(grid[c, r].value))) else old(grid[c, r])
        invariant allDone <==> forall c, r :: 0 <= c < col && 0 <= r < GRID_SIZE ==> old(grid[c, r].value.drop) <= 0
      {
        var moved := FallColumn(col);
        allDone := allDone && !moved;
        col := col + 1;
      }
      forall c, r | 0 <= c < GRID_SIZE && 0 <= r < GRID_SIZE
        ensures grid[c, r].Some? && LandingAt(grid[c, r].value, c, r)
      {
        assert old(LandingAt(grid[c, r].value, c, r));
        assert grid[c, r] == Some(Fall(old(grid[c, r].value)));
      }
      if allDone {
        forall c, r | 0 <= c < GRID_SIZE && 0 <= r < GRID_SIZE
          ensures grid[c, r].Some? && SettledAt(grid[c, r].value, c, r)
        {
          assert old(grid[c, r].value.drop) <= 0;
        }
      }
    }

    /** The inner loop of `translateFrame` over column `col`; `moved` when some tile in it had some way left to fall. */
    method FallColumn(col: int) returns (moved: bool)
      requires Shaped() && 0 <= col < GRID_SIZE && forall r :: 0 <= r < GRID_SIZE ==> grid[col, r].Some?
      modifies grid
      ensures forall r :: 0 <= r < GRID_SIZE ==> grid[col, r] == Some(Fall(old(grid[col, r].value)))
      ensures forall c, r :: 0 <= c < GRID_SIZE && c != col && 0 <= r < GRID_SIZE ==> grid[c, r] == old(grid[c, r])
      ensures moved <==> exists r :: 0 <= r < GRID_SIZE && old(grid[col, r].value.drop) > 0
    {
      moved := false;
      var row := 0;
      while row < GRID_SIZE
        invariant 0 <= row <= GRID_SIZE
        invariant forall r :: 0 <= r < GRID_SIZE ==> grid[col, r] == if r < row then Some(Fall(old(grid[col, r].value))) else old(grid[col, r])
        invariant forall c, r :: 0 <= c < GRID_SIZE && c != col && 0 <= r < GRID_SIZE ==> grid[c, r] == old(grid[c, r])
        invariant moved <==> exists r :: 0 <= r < row && old(grid[col, r].value.drop) > 0
      {
        var t := grid[col, row].value;
        if t.drop > 0 {
          moved := true;
          grid[col, row] := Some(t.(drop := t.drop - STEP, cy := t.cy + STEP));
        }
        row := row + 1;
      }
    }

    /**
     * The first stage of `vanishFrame` (game.js:277-288): every tile of the
     * path shrinks by STEP and hides its text, or, once its size is zero,
     * leaves the grid. Because the path's tiles share one size, all of them
     * leave in the same frame, and that is the frame that reports `allDone`.
     */
    method CollapsePath(ghost size: int) returns (allDone: bool)
      requires Shaped() && Distinct(path)
      requires forall i :: 0 <= i < |path| ==>
        InGrid(path[i]) && grid[path[i].col, path[i].row].Some? && grid[path[i].col, path[i].row].value.tileSize == size
      modifies grid
      ensures allDone <==> path == [] || size <= 0
      ensures forall c, r :: 0 <= c < GRID_SIZE && 0 <= r < GRID_SIZE ==>
        grid[c, r] == if Coord(c, r) in path then
          (if size > 0 then Some(Collapse(old(grid[c, r].value))) else None)
        else old(grid[c, r])
    {
      allDone := true;
      var i := 0;
      while i < |path|
        invariant 0 <= i <= |path|
        invariant allDone <==> i == 0 || size <= 0
        invariant forall c, r :: 0 <= c < GRID_SIZE && 0 <= r < GRID_SIZE ==>
          grid[c, r] == if Coord(c, r) in path[..i] then
            (if size > 0 then Some(Collapse(old(grid[c, r].value))) else None)
          else old(grid[c, r])
      {
        var p := path[i];
        assert InGrid(p) && p !in path[..i];
        assert grid[p.col, p.row] == old(grid[p.col, p.row]);
        assert path[..i + 1] == path[..i] + [p];
        if grid[p.col, p.row].value.tileSize > 0 {
          allDone := false;
          var t := grid[p.col, p.row].value;
          grid[p.col, p.row] := Some(t.(showText := false, tileSize := t.tileSize - STEP));
        } else {
          grid[p.col, p.row] := None;
        }
        i := i + 1;
      }
      assert path[..i] == path;
    }

    /**
     * The bottom-up pass of `vanishFrame` over column `c` (game.js:309-323):
     * counts the column's empty cells and moves every tile down by the number
     * of empty cells below it, recording that distance in its `drop`. The
     * top `holes` rows keep what they held.
     */
    method ShiftColumn(c: int) returns (holes: int)
      requires Shaped() && 0 <= c < GRID_SIZE
      modifies grid
      ensures holes == Holes(old(Column(c)))
      ensures Column(c) == Shifted(old(Column(c)))
      ensures forall c', r :: 0 <= c' < GRID_SIZE && c' != c && 0 <= r < GRID_SIZE ==> grid[c', r] == old(grid[c', r])
    {
      ghost var col0 := Column(c);
      ShiftStart(col0);
      holes := 0;
      var row := GRID_SIZE - 1;
      while row >= 0
        invariant ShiftState(col0, Column(c), row, holes)
        invariant forall c', r :: 0 <= c' < GRID_SIZE && c' != c && 0 <= r < GRID_SIZE ==> grid[c', r] == old(grid[c', r])
      {
        ghost var cur := Column(c);
        ShiftVisit(col0, cur, row, holes);
        if grid[c, row].None? {
          holes := holes + 1;
        } else {
          var t := grid[c, row].value;
          grid[c, row + holes] := Some(t.(drop := holes * TILE_SIZE));
          assert Column(c) == cur[row + holes := Some(t.(drop := holes * TILE_SIZE))];
        }
        row := row - 1;
      }
      ShiftDone(col0, Column(c), holes);
    }

    /**
     * A new tile from `generateTile(cx, cy)`, given the drop `drop` and
     * stored in cell `(c, r)`, the grid having been counted before the store.
     */
    method PlaceNew(c: int, r: int, cx: int, cy: int, drop: int, d: Draw)
      requires Shaped() && 0 <= c < GRID_SIZE && 0 <= r < GRID_SIZE && ValidDraw(d)
      modifies this`tick, this`lastGenMult, this`lastGenSquare, grid
      ensures Now() == Place(old(Now()), c, r, cx, cy, drop, d)
      ensures tick == old(tick) + 1 && (old(Bookkeeping()) ==> Bookkeeping())
      ensures grid[c, r].Some? && grid[c, r].value.cx == cx && grid[c, r].value.cy == cy
      ensures grid[c, r].value.drop == drop && grid[c, r].value.tileSize == TILE_SIZE
      ensures forall c', r' :: 0 <= c' < GRID_SIZE && 0 <= r' < GRID_SIZE && (c' != c || r' != r) ==> grid[c', r'] == old(grid[c', r'])
    {
      var t := GenerateTile(cx, cy, d);
      ghost var g := Now();
      assert forall c', r' :: 0 <= c' < GRID_SIZE && 0 <= r' < GRID_SIZE ==> g.cells[c'][r'] == grid[c', r'];
      grid[c, r] := Some(t.(drop := drop));
      Stored(g.cells, c, r, Some(t.(drop := drop)));
    }

    /**
     * The refill of column `c` (game.js:328-336): `n` new tiles are generated
     * above the grid, one row above the other, and each is given the drop
     * `n * TILE_SIZE` that brings it to one of the top `n` rows.
     */
    method RefillColumn(c: int, n: int, draws: seq<Draw>)
      requires Shaped() && 0 <= c < GRID_SIZE && 0 <= n <= GRID_SIZE && n <= |draws|
      requires ValidDraws(draws)
      modifies this`tick, this`lastGenMult, this`lastGenSquare, grid
      ensures tick == old(tick) + n
      ensures old(Bookkeeping()) ==> Bookkeeping()
      ensures forall r :: 0 <= r < n ==>
        grid[c, r].Some? && LandingAt(grid[c, r].value, c, r) && grid[c, r].value.drop == n * TILE_SIZE
      ensures forall c', r :: 0 <= c' < GRID_SIZE && 0 <= r < GRID_SIZE && (c' != c || r >= n) ==> grid[c', r] == old(grid[c', r])
      ensures Now() == RefillColumnFrom(old(Now()), c, n, 0, gridX, gridY, draws)
    {
      ghost var b0 := Now();
      RefillCells(c, n, draws, b0);
      RefillColumnDone(Now(), b0, c, n, gridX, gridY, draws);
    }

    /** The loop of game.js:329-335 storing the `n` new tiles of column `c`, bottom one first. */
    method RefillCells(c: int, n: int, draws: seq<Draw>, ghost b0: Board)
      requires RefillingColumn(b0, c, n, 0, draws)
      modifies this`tick, this`lastGenMult, this`lastGenSquare, grid
      ensures RefillingColumn(b0, c, n, n, draws)
      ensures tick == old(tick) + n
      ensures old(Bookkeeping()) ==> Bookkeeping()
    {
      var negRow := 0;
      while negRow < n
        invariant 0 <= negRow <= n
        invariant RefillingColumn(b0, c, n, negRow, draws)
        invariant tick == old(tick) + negRow
        invariant old(Bookkeeping()) ==> Bookkeeping()
      {
        RefillCell(c, n, negRow, draws, b0);
        negRow := negRow + 1;
      }
    }

    /**
     * Column `c` of `b0` being refilled with `n` new tiles, `k` of them
     * stored: the rest of the refill runs from the present state, each of
     * the bottom `k` rows of the `n` holds a tile that lands there from its
     * drop `n * TILE_SIZE`, and every other cell is as in `b0`.
     */
    ghost predicate RefillingColumn(b0: Board, c: int, n: int, k: int, draws: seq<Draw>)
      reads this, grid
    {
      Shaped() && Sized(b0.cells) && 0 <= c < GRID_SIZE && 0 <= k <= n <= GRID_SIZE && n <= |draws| && ValidDraws(draws) &&
      RefillColumnFrom(Now(), c, n, k, gridX, gridY, draws) == RefillColumnFrom(b0, c, n, 0, gridX, gridY, draws) &&
      (forall r :: n - k <= r < n ==>
        grid[c, r].Some? && LandingAt(grid[c, r].value, c, r) && grid[c, r].value.drop == n * TILE_SIZE) &&
      forall c', r :: 0 <= c' < GRID_SIZE && 0 <= r < GRID_SIZE && (c' != c || r < n - k || r >= n) ==> grid[c', r] == b0.cells[c'][r]
    }

    /**
     * One pass of the refilling loop of column `c` (game.js:329-335): the
     * new tile for `negRow == k` is generated `k + 1` rows above the grid
     * and stored in row `n - k - 1`, which its drop brings it to.
     */
    method RefillCell(c: int, n: int, k: int, draws: seq<Draw>, ghost b0: Board)
      requires RefillingColumn(b0, c, n, k, draws) && k < n
      modifies this`tick, this`lastGenMult, this`lastGenSquare, grid
      ensures RefillingColumn(b0, c, n, k + 1, draws)
      ensures tick == old(tick) + 1
      ensures old(Bookkeeping()) ==> Bookkeeping()
    {
      ghost var b := Now();
      var row := n - k - 1;
      PlaceNew(c, row, gridX + c * TILE_SIZE + TILE_SIZE / 2, gridY - (k + 1) * TILE_SIZE + TILE_SIZE / 2, n * TILE_SIZE, draws[k]);
      RefillColumnAdvance(b, Now(), b0, c, n, k, gridX, gridY, draws);
      Lands(grid[c, row].value, c, row, n);
    }

    /** A new tile `n - r` rows above row `r`, given the drop `n * TILE_SIZE`, lands in cell `(c, r)`. */
    lemma Lands(t: Tile, c: int, r: int, n: int)
      requires 0 <= r < n && t.tileSize == TILE_SIZE && t.drop == n * TILE_SIZE
      requires t.cx == gridX + c * TILE_SIZE + TILE_SIZE / 2 && t.cy == gridY - (n - r) * TILE_SIZE + TILE_SIZE / 2
      ensures LandingAt(t, c, r)
    {
      assert t.drop == STEP * (n * (TILE_SIZE / STEP));
    }

    /**
     * The second stage of `vanishFrame` (game.js:307-337), once the path's
     * tiles have left: every column is shifted down over its empty cells,
     * then refilled from above with as many new tiles as it had empty
     * cells, one `Draw` per new tile. Afterwards every cell holds a tile
     * that lands in it once its `drop` is spent.
     */
    method Compact(draws: seq<Draw>)
      requires Shaped() && ScarceGrid()
      requires |draws| >= GRID_SIZE * GRID_SIZE && ValidDraws(draws)
      requires forall c :: 0 <= c < GRID_SIZE ==> AtRest(Column(c), CentreX(c), CentreY(0))
      modifies this`tick, this`lastGenMult, this`lastGenSquare, grid
      ensures AllLanding() && ScarceGrid()
      ensures Now() == Compacted(old(Now()), gridX, gridY, draws)
      ensures tick == old(tick) + GridHoles(old(Cells()))
      ensures old(Bookkeeping()) ==> Bookkeeping()
      ensures forall c, r :: 0 <= c < GRID_SIZE && Holes(old(Cells())[c]) <= r < GRID_SIZE ==>
        grid[c, r] == Shifted(old(Cells())[c])[r]
      ensures forall c, r :: 0 <= c < GRID_SIZE && 0 <= r < Holes(old(Cells())[c]) ==>
        grid[c, r].Some? && grid[c, r].value.drop == Holes(old(Cells())[c]) * TILE_SIZE
    {
      ghost var b := Now();
      var newTiles := ShiftAll();
      assert newTiles == HoleCounts(b.cells);
      ShiftedGrid(b.cells);
      RefillShifted(newTiles, draws, b);
    }

    /** The second half of `Compact`: the holes that shifting left at the top of each column of `b` are refilled. */
    method RefillShifted(newTiles: seq<int>, draws: seq<Draw>, ghost b: Board)
      requires Shaped() && Sized(b.cells) && Scarce(GridCensus(b.cells))
      requires forall c :: 0 <= c < GRID_SIZE ==> AtRest(b.cells[c], CentreX(c), CentreY(0))
      requires |draws| >= GRID_SIZE * GRID_SIZE && ValidDraws(draws)
      requires newTiles == HoleCounts(b.cells) && Now() == b.(cells := ShiftGrid(b.cells))
      modifies this`tick, this`lastGenMult, this`lastGenSquare, grid
      ensures AllLanding() && ScarceGrid()
      ensures Now() == Compacted(b, gridX, gridY, draws)
      ensures tick == b.tick + GridHoles(b.cells)
      ensures old(Bookkeeping()) ==> Bookkeeping()
      ensures forall c, r :: 0 <= c < GRID_SIZE && Holes(b.cells[c]) <= r < GRID_SIZE ==>
        grid[c, r] == Shifted(b.cells[c])[r]
      ensures forall c, r :: 0 <= c < GRID_SIZE && 0 <= r < Holes(b.cells[c]) ==>
        grid[c, r].Some? && grid[c, r].value.drop == Holes(b.cells[c]) * TILE_SIZE
    {
      RefillAll(newTiles, draws);
      Compacting(b, draws);
      CompactLands(b.cells);
    }

    /** A grid refilled after its columns were shifted is the compacted board, and keeps operators scarce. */
    lemma Compacting(b: Board, draws: seq<Draw>)
      requires Shaped() && Sized(b.cells) && |draws| >= GRID_SIZE * GRID_SIZE && ValidDraws(draws)
      requires Scarce(GridCensus(b.cells))
      requires Now() == RefillFrom(b.(cells := ShiftGrid(b.cells)), HoleCounts(b.cells), 0, gridX, gridY, draws)
      ensures Now() == Compacted(b, gridX, gridY, draws) && ScarceGrid()
    {
      CompactedScarce(b, gridX, gridY, draws);
    }

    /** Refilled holes and shifted tiles together land every cell of the grid on its own row. */
    lemma CompactLands(before: seq<seq<Option<Tile>>>)
      requires Shaped() && Sized(before)
      requires forall c :: 0 <= c < GRID_SIZE ==> AtRest(before[c], CentreX(c), CentreY(0))
      requires forall c, r :: 0 <= c < GRID_SIZE && Holes(before[c]) <= r < GRID_SIZE ==>
        grid[c, r] == Shifted(before[c])[r]
      requires forall c, r :: 0 <= c < GRID_SIZE && 0 <= r < Holes(before[c]) ==>
        grid[c, r].Some? && LandingAt(grid[c, r].value, c, r)
      ensures AllLanding()
    {
      forall c, r | 0 <= c < GRID_SIZE && 0 <= r < GRID_SIZE
        ensures grid[c, r].Some? && LandingAt(grid[c, r].value, c, r)
      {
        ShiftedLanding(before[c], CentreX(c), CentreY(0));
      }
    }

    /** The grid once every column of `before` is shifted. */
    lemma ShiftedGrid(before: seq<seq<Option<Tile>>>)
      requires Shaped() && Sized(before) && forall c :: 0 <= c < GRID_SIZE ==> Column(c) == Shifted(before[c])
      ensures Cells() == ShiftGrid(before)
    {
    }

    /** The shifting loop of `vanishFrame` (game.js:307-324): `newTilesPerCol` and the shifted columns. */
    method ShiftAll() returns (newTiles: seq<int>)
      requires Shaped()
      modifies grid
      ensures |newTiles| == GRID_SIZE
      ensures forall c :: 0 <= c < GRID_SIZE ==> Column(c) == Shifted(old(Column(c))) && newTiles[c] == Holes(old(Column(c)))
    {
      ghost var g1 := Cells();
      newTiles := [];
      var col := 0;
      while col < GRID_SIZE
        invariant 0 <= col <= GRID_SIZE && |newTiles| == col
        invariant forall c :: 0 <= c < col ==> Column(c) == Shifted(g1[c]) && newTiles[c] == Holes(g1[c])
        invariant forall c :: col <= c < GRID_SIZE ==> Column(c) == g1[c]
      {
        ghost var before := Cells();
        var h := ShiftColumn(col);
        forall c | 0 <= c < GRID_SIZE && c != col
          ensures Column(c) == before[c]
        {
        }
        newTiles := newTiles + [h];
        col := col + 1;
      }
    }

    /** The refilling loop of `vanishFrame` (game.js:327-337), column by column. */
    method RefillAll(newTiles: seq<int>, draws: seq<Draw>)
      requires Shaped() && |newTiles| == GRID_SIZE && forall c :: 0 <= c < GRID_SIZE ==> 0 <= newTiles[c] <= GRID_SIZE
      requires |draws| >= GRID_SIZE * GRID_SIZE && ValidDraws(draws)
      modifies this`tick, this`lastGenMult, this`lastGenSquare, grid
      ensures tick == old(tick) + Sum(newTiles)
      ensures old(Bookkeeping()) ==> Bookkeeping()
      ensures forall c, r :: 0 <= c < GRID_SIZE && 0 <= r < newTiles[c] ==>
        grid[c, r].Some? && LandingAt(grid[c, r].value, c, r) && grid[c, r].value.drop == newTiles[c] * TILE_SIZE
      ensures forall c, r :: 0 <= c < GRID_SIZE && newTiles[c] <= r < GRID_SIZE ==> grid[c, r] == old(grid[c, r])
      ensures Now() == RefillFrom(old(Now()), newTiles, 0, gridX, gridY, draws)
    {
      ghost var b0 := Now();
      var rest := draws;
      var col := 0;
      while col < GRID_SIZE
        invariant RefillingGrid(b0, newTiles, col, rest, draws)
        invariant tick == old(tick) + Sum(newTiles[..col])
        invariant old(Bookkeeping()) ==> Bookkeeping()
      {
        SumPrefix(newTiles, col);
        RefillNextColumn(newTiles, col, rest, draws, b0);
        rest := rest[newTiles[col]..];
        col := col + 1;
      }
      assert newTiles[..GRID_SIZE] == newTiles;
    }

    /**
     * The grid `b0` being refilled column by column, the columns before
     * `col` done and `rest` the draws they left: the rest of the refill runs
     * from the present state on those draws, each refilled cell holds a tile that lands
     * there, and every other cell is as in `b0`.
     */
    ghost predicate RefillingGrid(b0: Board, counts: seq<int>, col: int, rest: seq<Draw>, draws: seq<Draw>)
      reads this, grid
    {
      Shaped() && Sized(b0.cells) && |counts| == GRID_SIZE && (forall c :: 0 <= c < GRID_SIZE ==> 0 <= counts[c] <= GRID_SIZE) &&
      0 <= col <= GRID_SIZE && |draws| >= GRID_SIZE * GRID_SIZE && ValidDraws(draws) &&
      |rest| >= (GRID_SIZE - col) * GRID_SIZE && ValidDraws(rest) &&
      RefillFrom(Now(), counts, col, gridX, gridY, rest) == RefillFrom(b0, counts, 0, gridX, gridY, draws) &&
      (forall c, r :: 0 <= c < col && 0 <= r < counts[c] ==>
        grid[c, r].Some? && LandingAt(grid[c, r].value, c, r) && grid[c, r].value.drop == counts[c] * TILE_SIZE) &&
      forall c, r :: 0 <= c < GRID_SIZE && 0 <= r < GRID_SIZE && (c >= col || r >= counts[c]) ==> grid[c, r] == b0.cells[c][r]
    }

    /** One pass of the refilling loop of `vanishFrame` (game.js:327-337): column `col` is refilled. */
    method RefillNextColumn(counts: seq<int>, col: int, rest: seq<Draw>, draws: seq<Draw>, ghost b0: Board)
      requires RefillingGrid(b0, counts, col, rest, draws) && col < GRID_SIZE
      modifies this`tick, this`lastGenMult, this`lastGenSquare, grid
      ensures RefillingGrid(b0, counts, col + 1, rest[counts[col]..], draws)
      ensures tick == old(tick) + counts[col]
      ensures old(Bookkeeping()) ==> Bookkeeping()
    {
      ghost var b := Now();
      RefillColumn(col, counts[col], rest);
      RefillAdvance(b, Now(), RefillFrom(b0, counts, 0, gridX, gridY, draws), counts, col, gridX, gridY, rest, rest[counts[col]..]);
    }

    /**
     * One frame of `vanishFrame` (game.js:271-343). While the path's tiles
     * still have some size they shrink by STEP and the path stays; in the
     * frame that finds them at size zero they leave the grid, the path and
     * its sum are reset, the columns are compacted and refilled, and the
     * first frame of the drop animation runs.
     */
    method VanishFrame(draws: seq<Draw>)
      requires Valid() && phase == Vanishing
      requires |draws| >= GRID_SIZE * GRID_SIZE && ValidDraws(draws)
      modifies this`path, this`sum, this`tick, this`lastGenMult, this`lastGenSquare, this`animationRunning, this`phase, grid
      ensures Valid()
      ensures old(path) != [] && old(VanishSize()) > 0 ==>
        phase == Vanishing && path == old(path) && VanishSize() == old(VanishSize()) - STEP &&
        tick == old(tick) && lastGenMult == old(lastGenMult) && lastGenSquare == old(lastGenSquare)
      ensures old(path) != [] && old(VanishSize()) > 0 ==>
        forall c, r :: 0 <= c < GRID_SIZE && 0 <= r < GRID_SIZE ==>
          grid[c, r] == if Coord(c, r) in path then Some(Collapse(old(grid[c, r].value))) else old(grid[c, r])
      ensures old(path) == [] || old(VanishSize()) == 0 ==>
        path == [] && sum == 0 && (phase == Translating || phase == Idle) && tick == old(tick) + |old(path)|
      ensures old(path) == [] || old(VanishSize()) == 0 ==>
        Now() == FinalFrame(old(Now()), old(path), gridX, gridY, draws) &&
        (phase == Idle <==> GridMaxDrop(Refilled(old(Now()), old(path), gridX, gridY, draws).cells) == 0)
    {
      // `animationRunning = true` (game.js:272) is already so while a path vanishes.
      ghost var b := Now();
      ghost var size := VanishSize();
      var allDone := CollapsePath(size);
      if !allDone {
        assert path[0] in path;
        assert ShrinkingPath();
        OpsKept(b.cells);
        return;
      }
      forall c | 0 <= c < GRID_SIZE
        ensures AtRest(Column(c), CentreX(c), CentreY(0)) && Carved(Column(c), path, c)
      {
      }
      CellsAre(Carve(b.cells, path));
      GridCensusEmptied(b.cells, Cells());
      DropFrame(draws, b);
    }

    /**
     * The rest of the frame of `vanishFrame` that finds the tiles of the path
     * gone from the board `b` (game.js:292-341): the refill, then the first
     * frame of the drop.
     */
    method DropFrame(draws: seq<Draw>, ghost b: Board)
      requires Shaped() && Bookkeeping() && phase == Vanishing && ScarceGrid()
      requires |draws| >= GRID_SIZE * GRID_SIZE && ValidDraws(draws)
      requires forall c :: 0 <= c < GRID_SIZE ==> AtRest(Column(c), CentreX(c), CentreY(0)) && Carved(Column(c), path, c)
      requires Sized(b.cells) && Now() == b.(cells := Carve(b.cells, path))
      modifies this`path, this`sum, this`tick, this`lastGenMult, this`lastGenSquare, this`animationRunning, this`phase, grid
      ensures Valid() && path == [] && sum == 0 && (phase == Translating || phase == Idle) && tick == old(tick) + |old(path)|
      ensures Now() == FinalFrame(b, old(path), gridX, gridY, draws)
      ensures phase == Idle <==> GridMaxDrop(Refilled(b, old(path), gridX, gridY, draws).cells) == 0
    {
      ghost var p := path;
      FinishVanish(draws);
      TranslateFrame();
      Vanished(b, p, draws);
    }

    /**
     * The frame of `vanishFrame` that finds the path's tiles gone
     * (game.js:292-337): the path and its sum are reset and the grid is
     * compacted and refilled; the drop animation is about to start.
     */
    method FinishVanish(draws: seq<Draw>)
      requires Shaped() && Bookkeeping() && phase == Vanishing && ScarceGrid()
      requires |draws| >= GRID_SIZE * GRID_SIZE && ValidDraws(draws)
      requires forall c :: 0 <= c < GRID_SIZE ==> AtRest(Column(c), CentreX(c), CentreY(0)) && Carved(Column(c), path, c)
      modifies this`path, this`sum, this`tick, this`lastGenMult, this`lastGenSquare, this`phase, grid
      ensures Valid() && path == [] && sum == 0 && phase == Translating
      ensures tick == old(tick) + |old(path)|
      ensures Now() == Compacted(old(Now()), gridX, gridY, draws)
    {
      CarvedGridHoles(Cells(), path);
      Compact(draws);
      EndVanish();
    }

    /**
     * `currentPath = []; currentSum = 0;` (game.js:293-297) and the hand-over
     * to the drop animation (game.js:341), once the compacted grid is in
     * place.
     */
    method EndVanish()
      requires Shaped() && Bookkeeping() && phase == Vanishing && AllLanding() && ScarceGrid()
      modifies this`path, this`sum, this`phase
      ensures Valid() && path == [] && sum == 0 && phase == Translating
      ensures Now() == old(Now())
    {
      path := [];
      sum := 0;
      phase := Translating;
    }

    /** Compacting the board `b` with the tiles of `p` carved out is the refill of `vanishFrame`, and one drop frame of it its final frame. */
    lemma Vanished(b: Board, p: seq<Coord>, draws: seq<Draw>)
      requires Sized(b.cells) && |draws| >= GRID_SIZE * GRID_SIZE && ValidDraws(draws)
      requires var k := Compacted(b.(cells := Carve(b.cells, p)), gridX, gridY, draws);
        Cells() == GridFall(k.cells) && tick == k.tick && lastGenMult == k.lastMult && lastGenSquare == k.lastSquare &&
        (phase == Idle <==> GridMaxDrop(k.cells) == 0)
      ensures Now() == FinalFrame(b, p, gridX, gridY, draws)
      ensures phase == Idle <==> GridMaxDrop(Refilled(b, p, gridX, gridY, draws).cells) == 0
    {
    }

    /**
     * `fidget(coords)` (game.js:434-447): the tile at `coords` starts to
     * shake; its resting abscissa is remembered and the first frame moves it
     * FIDGET_STEP to the right.
     */
    method Fidget(coords: Coord)
      requires Valid() && phase == Idle && InGrid(coords) && path == []
      modifies this`animationRunning, this`phase, this`fidgetCoords, this`fidgetOrigX, this`fidgetToggle, grid
      ensures Valid() && phase == Fidgeting && fidgetCoords == coords && fidgetOrigX == CentreX(coords.col) && !fidgetToggle
      ensures grid[coords.col, coords.row] == Some(old(grid[coords.col, coords.row].value).(cx := fidgetOrigX + FIDGET_STEP))
      ensures forall c, r :: 0 <= c < GRID_SIZE && 0 <= r < GRID_SIZE && Coord(c, r) != coords ==> grid[c, r] == old(grid[c, r])
    {
      StartFidget(coords);
      FidgetFrame(false);
    }

    /** The set-up of game.js:435-444: the tile at `coords` and its resting abscissa are remembered, nothing moves yet. */
    method StartFidget(coords: Coord)
      requires Valid() && phase == Idle && InGrid(coords) && path == []
      modifies this`animationRunning, this`phase, this`fidgetCoords, this`fidgetOrigX, this`fidgetToggle
      ensures Valid() && phase == Fidgeting && fidgetCoords == coords && fidgetOrigX == CentreX(coords.col) && fidgetToggle
    {
      animationRunning := true;
      var t := grid[coords.col, coords.row].value;
      fidgetCoords := coords;
      fidgetOrigX := t.cx;
      fidgetToggle := true;
      phase := Fidgeting;
    }

    /**
     * One frame of `fidgetFrame` (game.js:449-467); `expired` says whether
     * more than 150 ms have passed since the fidget began. An expired fidget
     * puts the tile back at its resting abscissa and ends the animation;
     * otherwise the tile moves FIDGET_STEP right or left, alternately.
     */
    method FidgetFrame(expired: bool)
      requires Valid() && phase == Fidgeting
      modifies this`animationRunning, this`phase, this`fidgetToggle, grid
      ensures Valid()
      ensures forall c, r :: 0 <= c < GRID_SIZE && 0 <= r < GRID_SIZE && Coord(c, r) != fidgetCoords ==> grid[c, r] == old(grid[c, r])
      ensures expired ==> phase == Idle
      ensures expired ==>
        grid[fidgetCoords.col, fidgetCoords.row] == Some(old(grid[fidgetCoords.col, fidgetCoords.row].value).(cx := fidgetOrigX))
      ensures !expired ==> phase == Fidgeting && fidgetToggle == !old(fidgetToggle)
      ensures !expired ==>
        grid[fidgetCoords.col, fidgetCoords.row] == Some(old(grid[fidgetCoords.col, fidgetCoords.row].value).(
          cx := old(grid[fidgetCoords.col, fidgetCoords.row].value.cx) + if old(fidgetToggle) then FIDGET_STEP else -FIDGET_STEP))
    {
      if expired {
        EndFidget();
      } else {
        FidgetStep();
      }
    }

    /** The fidget's last frame (game.js:452-458): the tile goes back to its abscissa and the animation ends. */
    method EndFidget()
      requires Valid() && phase == Fidgeting
      modifies this`animationRunning, this`phase, grid
      ensures Valid() && phase == Idle
      ensures forall c, r :: 0 <= c < GRID_SIZE && 0 <= r < GRID_SIZE && Coord(c, r) != fidgetCoords ==> grid[c, r] == old(grid[c, r])
      ensures grid[fidgetCoords.col, fidgetCoords.row] == Some(old(grid[fidgetCoords.col, fidgetCoords.row].value).(cx := fidgetOrigX))
    {
      MoveTile(fidgetCoords, fidgetOrigX);
      animationRunning := false;
      phase := Idle;
      assert AllSettled();
    }

    /** A fidget frame before the last (game.js:459-466): the tile moves one step, alternately right and left. */
    method FidgetStep()
      requires Valid() && phase == Fidgeting
      modifies this`fidgetToggle, grid
      ensures Valid() && phase == Fidgeting && fidgetToggle == !old(fidgetToggle)
      ensures forall c, r :: 0 <= c < GRID_SIZE && 0 <= r < GRID_SIZE && Coord(c, r) != fidgetCoords ==> grid[c, r] == old(grid[c, r])
      ensures grid[fidgetCoords.col, fidgetCoords.row] == Some(old(grid[fidgetCoords.col, fidgetCoords.row].value).(
        cx := old(grid[fidgetCoords.col, fidgetCoords.row].value.cx) + if old(fidgetToggle) then FIDGET_STEP else -FIDGET_STEP))
    {
      var p := fidgetCoords;
      var t := grid[p.col, p.row].value;
      if fidgetToggle {
        MoveTile(p, t.cx + FIDGET_STEP);
      } else {
        MoveTile(p, t.cx - FIDGET_STEP);
      }
      fidgetToggle := !fidgetToggle;
    }

    /** The tile at `p` moves to the abscissa `x`; no operator changes, so neither does the census. */
    method MoveTile(p: Coord, x: int)
      requires Shaped() && InGrid(p) && grid[p.col, p.row].Some?
      modifies grid
      ensures grid[p.col, p.row] == Some(old(grid[p.col, p.row].value).(cx := x))
      ensures forall c, r :: 0 <= c < GRID_SIZE && 0 <= r < GRID_SIZE && Coord(c, r) != p ==> grid[c, r] == old(grid[c, r])
      ensures GridCensus(Cells()) == GridCensus(old(Cells()))
    {
      ghost var before := Cells();
      assert forall c, r :: 0 <= c < GRID_SIZE && 0 <= r < GRID_SIZE ==> before[c][r] == grid[c, r];
      grid[p.col, p.row] := Some(grid[p.col, p.row].value.(cx := x));
      OpsKept(before);
    }

    /**
     * What the mousedown and mousemove listeners do once they act
     * (game.js:536-545 and 556-565): the point is looked up; on an empty
     * path a tile that is not an Adder fidgets instead of starting the path;
     * otherwise `maybeAddToPath` decides, and an accepted tile is highlighted.
     */
    method Visit(x: int, y: int)
      requires Valid() && phase == Idle && enabled && InArea(x, y)
      modifies this`path, this`sum, this`animationRunning, this`phase, this`fidgetCoords, this`fidgetOrigX, this`fidgetToggle, grid
      ensures Valid() && Visited(x, y)
    {
      var found := GetTileForPoint(x, y);
      SettledLookup(x, y);
      if found.Some? {
        FirstHitUnique(found.value, PointCell(x, y), x, y);
      }
      var coords := found.value;
      if |path| == 0 && KindOf(grid[coords.col, coords.row].value.op) != ADD {
        FidgetInstead(coords);
      } else {
        AddAndHighlight(coords);
      }
    }

    /**
     * What visiting the point `(x, y)` of a grid at rest did. On an empty
     * path a tile that is not an Adder does not start a path: every
     * highlight is cleared and that tile fidgets, moved FIDGET_STEP to the
     * right of its resting abscissa. Otherwise a tile `maybeAddToPath`
     * accepts joins the path, adds its operator to the sum and is
     * highlighted, and a tile it refuses changes nothing. No other tile moves.
     */
    twostate predicate Visited(x: int, y: int)
      reads this, grid
      requires old(Valid()) && old(phase) == Idle && Shaped() && InArea(x, y)
    {
      var p := PointCell(x, y);
      var op := old(grid[p.col, p.row].value.op);
      if old(path) == [] && !op.Add? then
        phase == Fidgeting && fidgetCoords == p && path == [] && sum == old(sum) &&
        grid[p.col, p.row] == Some(old(grid[p.col, p.row].value).(highlight := false, cx := CentreX(p.col) + FIDGET_STEP)) &&
        forall c, r :: 0 <= c < GRID_SIZE && 0 <= r < GRID_SIZE && Coord(c, r) != p ==>
          grid[c, r] == Some(old(grid[c, r].value).(highlight := false))
      else
        phase == Idle &&
        path == (if Accepts(old(path), p) then old(path) + [p] else old(path)) &&
        sum == (if Accepts(old(path), p) then ApplyOp(op, old(sum)) else old(sum)) &&
        grid[p.col, p.row] == (if Accepts(old(path), p) then Some(old(grid[p.col, p.row].value).(highlight := true)) else old(grid[p.col, p.row])) &&
        forall c, r :: 0 <= c < GRID_SIZE && 0 <= r < GRID_SIZE && Coord(c, r) != p ==> grid[c, r] == old(grid[c, r])
    }

    /** A first tile that is not an Adder (game.js:538-542): the highlights are cleared and the tile fidgets. */
    method FidgetInstead(p: Coord)
      requires Valid() && phase == Idle && InGrid(p) && path == []
      modifies this`animationRunning, this`phase, this`fidgetCoords, this`fidgetOrigX, this`fidgetToggle, grid
      ensures Valid() && phase == Fidgeting && fidgetCoords == p
      ensures grid[p.col, p.row] == Some(old(grid[p.col, p.row].value).(highlight := false, cx := CentreX(p.col) + FIDGET_STEP))
      ensures forall c, r :: 0 <= c < GRID_SIZE && 0 <= r < GRID_SIZE && Coord(c, r) != p ==>
        grid[c, r] == Some(old(grid[c, r].value).(highlight := false))
    {
      ClearHighlights();
      Fidget(p);
    }

    /** Any other visit (game.js:543-545): a tile `maybeAddToPath` accepts is highlighted. */
    method AddAndHighlight(p: Coord)
      requires Valid() && phase == Idle && enabled && InGrid(p)
      requires path == [] ==> grid[p.col, p.row].value.op.Add?
      modifies this`path, this`sum, grid
      ensures Valid()
      ensures path == (if Accepts(old(path), p) then old(path) + [p] else old(path))
      ensures sum == (if Accepts(old(path), p) then ApplyOp(old(grid[p.col, p.row].value.op), old(sum)) else old(sum))
      ensures grid[p.col, p.row] == (if Accepts(old(path), p) then Some(old(grid[p.col, p.row].value).(highlight := true)) else old(grid[p.col, p.row]))
      ensures forall c, r :: 0 <= c < GRID_SIZE && 0 <= r < GRID_SIZE && Coord(c, r) != p ==> grid[c, r] == old(grid[c, r])
    {
      var added := MaybeAddToPath(Some(p));
      if added {
        HighlightTile(p.col, p.row);
      }
    }

    /** The mousedown listener (game.js:527-547): a press starts a gesture and visits the point under it. */
    method MouseDown(x: int, y: int)
      requires Valid() && InArea(x, y)
      modifies this`inPath, this`path, this`sum, this`animationRunning, this`phase, this`fidgetCoords, this`fidgetOrigX, this`fidgetToggle, grid
      ensures Valid()
      ensures inPath == (old(inPath) || old(enabled))
      ensures !(old(enabled) && !old(inPath) && !old(animationRunning)) ==>
        path == old(path) && sum == old(sum) && phase == old(phase) && unchanged(grid)
      ensures old(enabled) && !old(inPath) && !old(animationRunning) ==> Visited(x, y)
    {
      if !enabled {
        return;
      }
      if !inPath {
        inPath := true;
        if animationRunning {
          return;
        }
        Visit(x, y);
      }
    }

    /** The mousemove listener (game.js:548-567): a move during a gesture visits the point under it. */
    method MouseMove(x: int, y: int)
      requires Valid() && InArea(x, y)
      modifies this`path, this`sum, this`animationRunning, this`phase, this`fidgetCoords, this`fidgetOrigX, this`fidgetToggle, grid
      ensures Valid()
      ensures !(old(enabled) && old(inPath) && !old(animationRunning)) ==>
        path == old(path) && sum == old(sum) && phase == old(phase) && unchanged(grid)
      ensures old(enabled) && old(inPath) && !old(animationRunning) ==> Visited(x, y)
    {
      if !enabled {
        return;
      }
      if inPath {
        if animationRunning {
          return;
        }
        Visit(x, y);
      }
    }

    /** `updatePoints` (game.js:500-503): a cleared path scores the square of its length. */
    method UpdatePoints()
      modifies this`points
      ensures points == old(points) + |path| * |path|
    {
      points := points + |path| * |path|;
    }

    /**
     * The mouseup listener (game.js:568-587): releasing ends the gesture. A
     * path whose sum is zero scores the square of its length and starts to
     * vanish; any other path is dropped, with its highlights and its sum.
     */
    method MouseUp(draws: seq<Draw>)
      requires Valid()
      requires |draws| >= GRID_SIZE * GRID_SIZE && ValidDraws(draws)
      modifies this`inPath, this`points, this`path, this`sum, this`tick, this`lastGenMult, this`lastGenSquare,
        this`animationRunning, this`phase, grid
      ensures Valid()
      ensures inPath == (old(inPath) && !old(enabled))
      ensures !(old(enabled) && old(inPath) && !old(animationRunning)) ==>
        path == old(path) && sum == old(sum) && points == old(points) && phase == old(phase) && unchanged(grid)
      ensures old(enabled) && old(inPath) && !old(animationRunning) && old(sum) == 0 ==>
        points == old(points) + |old(path)| * |old(path)| &&
        (old(path) != [] ==> phase == Vanishing && path == old(path) && VanishSize() == TILE_SIZE - STEP) &&
        (old(path) == [] ==> path == [] && sum == 0 && phase == Idle && Now() == old(Now()))
      ensures old(enabled) && old(inPath) && !old(animationRunning) && old(sum) == 0 && old(path) != [] ==>
        forall c, r :: 0 <= c < GRID_SIZE && 0 <= r < GRID_SIZE ==>
          grid[c, r] == if Coord(c, r) in path then Some(Collapse(old(grid[c, r].value))) else old(grid[c, r])
      ensures old(enabled) && old(inPath) && !old(animationRunning) && old(sum) != 0 ==>
        points == old(points) && path == [] && sum == 0 && phase == Idle &&
        forall c, r :: 0 <= c < GRID_SIZE && 0 <= r < GRID_SIZE ==> grid[c, r] == Some(old(grid[c, r].value).(highlight := false))
    {
      if !enabled {
        return;
      }
      if inPath {
        inPath := false;
        if animationRunning {
          return;
        }
        if sum == 0 {
          ClearZeroPath(draws);
        } else {
          DropPath();
        }
      }
    }

    /** A released path whose sum is zero: it scores and starts to vanish. */
    method ClearZeroPath(draws: seq<Draw>)
      requires Valid() && phase == Idle && sum == 0
      requires |draws| >= GRID_SIZE * GRID_SIZE && ValidDraws(draws)
      modifies this`points, this`path, this`sum, this`tick, this`lastGenMult, this`lastGenSquare,
        this`animationRunning, this`phase, grid
      ensures Valid()
      ensures points == old(points) + |old(path)| * |old(path)|
      ensures old(path) != [] ==> phase == Vanishing && path == old(path) && VanishSize() == TILE_SIZE - STEP
      ensures old(path) != [] ==>
        forall c, r :: 0 <= c < GRID_SIZE && 0 <= r < GRID_SIZE ==>
          grid[c, r] == if Coord(c, r) in path then Some(Collapse(old(grid[c, r].value))) else old(grid[c, r])
      ensures old(path) == [] ==> path == [] && sum == 0 && phase == Idle && Now() == old(Now())
    {
      UpdatePoints();
      if path == [] {
        VanishNothing(draws);
      } else {
        StartVanish();
        VanishFrame(draws);
      }
    }

    /**
     * The vanish animation of an empty path: its first frame finds nothing
     * with size left, carves, shifts and generates nothing, and the drop
     * ends at once, so the game is idle again with the board unchanged.
     */
    method VanishNothing(draws: seq<Draw>)
      requires Valid() && phase == Idle && path == [] && sum == 0
      requires |draws| >= GRID_SIZE * GRID_SIZE && ValidDraws(draws)
      modifies this`path, this`sum, this`tick, this`lastGenMult, this`lastGenSquare,
        this`animationRunning, this`phase, grid
      ensures Valid() && path == [] && sum == 0 && phase == Idle && Now() == old(Now())
    {
      SettledStill();
      QuietVanish(Now(), gridX, gridY, draws);
      StartVanish();
      VanishFrame(draws);
    }

    /** A grid at rest has nothing left to fall. */
    lemma SettledStill()
      requires Shaped() && AllSettled()
      ensures Still(Cells())
    {
      forall c, r | 0 <= c < GRID_SIZE && 0 <= r < GRID_SIZE
        ensures grid[c, r].Some? && grid[c, r].value.drop == 0
      {
        assert SettledAt(grid[c, r].value, c, r);
      }
    }

    /** A released path whose sum is not zero: highlights, path and sum are cleared, the grid is kept. */
    method DropPath()
      requires Valid() && phase == Idle
      modifies this`path, this`sum, grid
      ensures Valid() && path == [] && sum == 0
      ensures forall c, r :: 0 <= c < GRID_SIZE && 0 <= r < GRID_SIZE ==> grid[c, r] == Some(old(grid[c, r].value).(highlight := false))
    {
      ClearHighlights();
      path := [];
      sum := 0;
    }

    /** The start of the vanish animation: a settled grid is a shrinking one at full size. */
    method StartVanish()
      requires Valid() && phase == Idle && sum == 0
      modifies this`animationRunning, this`phase
      ensures Valid() && phase == Vanishing && VanishSize() == (if path == [] then 0 else TILE_SIZE)
    {
      animationRunning := true;
      phase := Vanishing;
      SettledShrinks();
    }

    /** A settled grid is a shrinking one whose path is at full size. */
    lemma SettledShrinks()
      requires Shaped() && WellFormed(path) && AllLive() && AllSettled()
      ensures ShrinkingPath() && VanishSize() == (if path == [] then 0 else TILE_SIZE)
    {
      if path != [] {
        assert InGrid(path[0]);
      }
      forall c, r | 0 <= c < GRID_SIZE && 0 <= r < GRID_SIZE
        ensures PlacedAt(grid[c, r].value, c, r)
        ensures grid[c, r].value.tileSize == if Coord(c, r) in path then VanishSize() else TILE_SIZE
      {
        assert SettledAt(grid[c, r].value, c, r);
      }
    }

    /**
     * `gameOver` (game.js:492-498) as the game evidently intends it: input
     * is disabled and the gesture is over, so its sum is reset and no
     * gesture is in progress. Clearing the highlights and the path waits
     * until no animation is running: a vanishing path is left to the
     * vanish animation, which clears it itself.
     */
    method GameOver()
      requires Valid()
      modifies this`enabled, this`inPath, this`path, this`sum, grid
      ensures Valid() && !enabled && !inPath && sum == 0
      ensures old(phase) == Idle ==> path == []
      ensures old(phase) == Idle ==>
        forall c, r :: 0 <= c < GRID_SIZE && 0 <= r < GRID_SIZE ==> grid[c, r] == Some(old(grid[c, r].value).(highlight := false))
      ensures old(phase) != Idle ==> path == old(path) && unchanged(grid)
    {
      if !animationRunning {
        ClearHighlights();
        ForgetGesture();
      }
      Disable();
    }

    /** The path of a grid at rest is dropped, and with it its sum. */
    method ForgetGesture()
      requires Valid() && phase == Idle
      modifies this`path, this`sum
      ensures Valid() && path == [] && sum == 0
    {
      path := [];
      sum := 0;
    }

    /** Input is disabled and no gesture is in progress; a path at rest was already dropped. */
    method Disable()
      requires Valid() && (phase == Idle ==> path == [])
      modifies this`enabled, this`inPath, this`sum
      ensures Valid() && !enabled && !inPath && sum == 0
    {
      sum := 0;
      inPath := false;
      enabled := false;
    }

    /** `startGame` (game.js:484-490), without the overlay and the countdown timer. */
    method StartGame()
      requires Valid()
      modifies this`enabled
      ensures Valid() && enabled
    {
      enabled := true;
    }

    /**
     * `TileGrid.init` (game.js:167-178): a new tile is generated at the
     * centre of every cell, column by column, one `Draw` per tile, each
     * generation counting the grid as the stores before it left it. The
     * grid that results is settled and holds at most one Multiplier and one
     * Square, whatever it held before.
     */
    method Init(draws: seq<Draw>)
      requires Shaped()
      requires |draws| >= GRID_SIZE * GRID_SIZE && ValidDraws(draws)
      modifies this`tick, this`lastGenMult, this`lastGenSquare, grid
      ensures AllLive() && AllSettled() && ScarceGrid()
      ensures Now() == InitFrom(old(Now()), 0, gridX, gridY, draws)
      ensures tick == old(tick) + GRID_SIZE * GRID_SIZE
      ensures old(Bookkeeping()) ==> Bookkeeping()
    {
      ghost var b0 := Now();
      ghost var goal := InitFrom(b0, 0, gridX, gridY, draws);
      var col := 0;
      while col < GRID_SIZE
        invariant InitializingGrid(goal, col, draws)
        invariant tick == old(tick) + col * GRID_SIZE
        invariant old(Bookkeeping()) ==> Bookkeeping()
      {
        InitNextColumn(col, draws, goal);
        col := col + 1;
      }
      InitScarceAll(b0, gridX, gridY, draws);
      InitCentres(b0, 0, gridX, gridY, draws);
      CentredSettled(goal.cells);
    }

    /** A grid whose every cell holds a new tile centred in it is settled. */
    lemma CentredSettled(cells: seq<seq<Option<Tile>>>)
      requires Shaped() && Cells() == cells
      requires forall c, r :: 0 <= c < GRID_SIZE && 0 <= r < GRID_SIZE ==> CentredIn(cells[c][r], c, r, gridX, gridY)
      ensures AllLive() && AllSettled()
    {
      forall c, r | 0 <= c < GRID_SIZE && 0 <= r < GRID_SIZE
        ensures grid[c, r].Some? && SettledAt(grid[c, r].value, c, r)
      {
        assert grid[c, r] == Cells()[c][r];
      }
    }

    /** `init` on its way to the board `goal`, the columns before `col` filled: the rest of it runs from the present state. */
    ghost predicate InitializingGrid(goal: Board, col: int, draws: seq<Draw>)
      reads this, grid
    {
      Shaped() && 0 <= col <= GRID_SIZE && |draws| >= GRID_SIZE * GRID_SIZE && ValidDraws(draws) &&
      InitFrom(Now(), col, gridX, gridY, draws) == goal
    }

    /** One pass of the outer loop of `init` (game.js:169-177): column `col` is filled. */
    method InitNextColumn(col: int, draws: seq<Draw>, ghost goal: Board)
      requires InitializingGrid(goal, col, draws) && col < GRID_SIZE
      modifies this`tick, this`lastGenMult, this`lastGenSquare, grid
      ensures InitializingGrid(goal, col + 1, draws)
      ensures tick == old(tick) + GRID_SIZE
      ensures old(Bookkeeping()) ==> Bookkeeping()
    {
      ghost var b := Now();
      InitColumn(col, draws);
      InitColumnStep(b, Now(), col, gridX, gridY, draws);
    }

    /** The inner loop of `init` (game.js:170-176): a new tile at the centre of every cell of column `col`. */
    method InitColumn(col: int, draws: seq<Draw>)
      requires Shaped() && 0 <= col < GRID_SIZE && |draws| >= GRID_SIZE * GRID_SIZE && ValidDraws(draws)
      modifies this`tick, this`lastGenMult, this`lastGenSquare, grid
      ensures Now() == InitColumnFrom(old(Now()), col, 0, gridX, gridY, draws)
      ensures tick == old(tick) + GRID_SIZE
      ensures old(Bookkeeping()) ==> Bookkeeping()
    {
      ghost var goal := InitColumnFrom(Now(), col, 0, gridX, gridY, draws);
      var row := 0;
      while row < GRID_SIZE
        invariant Initializing(goal, col, row, draws)
        invariant tick == old(tick) + row
        invariant old(Bookkeeping()) ==> Bookkeeping()
      {
        InitCell(col, row, draws, goal);
        row := row + 1;
      }
    }

    /** Column `col` being filled by `init` on its way to the board `goal`, `row` cells stored: the rest of the column runs from the present state. */
    ghost predicate Initializing(goal: Board, col: int, row: int, draws: seq<Draw>)
      reads this, grid
    {
      Shaped() && 0 <= col < GRID_SIZE && 0 <= row <= GRID_SIZE && |draws| >= GRID_SIZE * GRID_SIZE && ValidDraws(draws) &&
      InitColumnFrom(Now(), col, row, gridX, gridY, draws) == goal
    }

    /** One pass of the inner loop of `init` (game.js:171-175): a new tile at the centre of cell `(col, row)`. */
    method InitCell(col: int, row: int, draws: seq<Draw>, ghost goal: Board)
      requires Initializing(goal, col, row, draws) && row < GRID_SIZE
      modifies this`tick, this`lastGenMult, this`lastGenSquare, grid
      ensures Initializing(goal, col, row + 1, draws)
      ensures tick == old(tick) + 1
      ensures old(Bookkeeping()) ==> Bookkeeping()
    {
      ghost var b := Now();
      PlaceNew(col, row, gridX + col * TILE_SIZE + TILE_SIZE / 2, gridY + row * TILE_SIZE + TILE_SIZE / 2, 0, draws[col * GRID_SIZE + row]);
      InitAdvance(b, Now(), goal, col, row, gridX, gridY, draws);
    }

    /**
     * The play-again button (game.js:591-597): the grid is generated afresh
     * and input is enabled again. After a game over no gesture is in
     * progress, so the new game starts from an empty path whose sum is zero.
     * The score is kept.
     */
    method PlayAgain(draws: seq<Draw>)
      requires Valid() && !enabled && phase == Idle
      requires |draws| >= GRID_SIZE * GRID_SIZE && ValidDraws(draws)
      modifies this`enabled, this`tick, this`lastGenMult, this`lastGenSquare, grid
      ensures Valid() && enabled && phase == Idle
      ensures path == [] && sum == 0 && !inPath && points == old(points)
      ensures tick == old(tick) + GRID_SIZE * GRID_SIZE
      ensures Now() == InitFrom(old(Now()), 0, gridX, gridY, draws)
    {
      Init(draws);
      StartGame();
    }

    /**
     * The game as `draw` sets it up (game.js:12-36, 158-165, 523-524): an
     * empty grid with its corner at `(x, y)`, filled by `init`; no path,
     * no score, no animation, input disabled until the game starts.
     */
    constructor (x: int, y: int, draws: seq<Draw>)
      requires |draws| >= GRID_SIZE * GRID_SIZE && ValidDraws(draws)
      ensures Valid() && phase == Idle && !enabled && !inPath
      ensures path == [] && sum == 0 && points == 0 && tick == GRID_SIZE * GRID_SIZE
      ensures gridX == x && gridY == y
    {
      gridX := x;
      gridY := y;
      grid := new Option<Tile>[GRID_SIZE, GRID_SIZE]((c, r) => None);
      path := [];
      sum := 0;
      tick := 0;
      lastGenMult := 0;
      lastGenSquare := 0;
      animationRunning := false;
      phase := Idle;
      points := 0;
      inPath := false;
      enabled := false;
      fidgetCoords := Coord(0, 0);
      fidgetOrigX := 0;
      fidgetToggle := true;
      new;
      Init(draws);
    }
  }
}
