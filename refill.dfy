/**
 * Everything `generateTile` reads and writes, and the loops that call it:
 * `init`, which fills the grid, and the refill of `vanishFrame`, which
 * fills the top rows of each column once it has been shifted. These are
 * the reference definitions the engine's methods are proved against. Every
 * new tile is the one `Decide` chooses on the census of the grid as it is
 * at that moment, stale copies and tiles generated earlier included.
 */
module Refill {
  import opened Options
  import opened Tiles
  import opened Paths
  import opened Generation
  import opened Compaction
  import opened Animation

  /** The grid, as its columns, with the generation history: `tick` and the two `lastGen` entries. */
  datatype Board = Board(cells: seq<seq<Option<Tile>>>, tick: int, lastMult: int, lastSquare: int)

  /** GRID_SIZE columns of GRID_SIZE cells. */
  predicate Sized(cells: seq<seq<Option<Tile>>>)
  {
    |cells| == GRID_SIZE && forall c :: 0 <= c < GRID_SIZE ==> |cells[c]| == GRID_SIZE
  }

  /** The grid with cell `(c, r)` set to `x`. */
  function Put(cells: seq<seq<Option<Tile>>>, c: int, r: int, x: Option<Tile>): (cells': seq<seq<Option<Tile>>>)
    requires Sized(cells) && 0 <= c < GRID_SIZE && 0 <= r < GRID_SIZE
    ensures Sized(cells') && cells'[c][r] == x
    ensures forall c', r' :: 0 <= c' < GRID_SIZE && 0 <= r' < GRID_SIZE && (c' != c || r' != r) ==> cells'[c'][r'] == cells[c'][r']
  {
    cells[c := cells[c][r := x]]
  }

  /**
   * One call of `generateTile(cx, cy)` on `b`: a tick passes, the grid is
   * counted as it stands, and `Decide` chooses the new tile. A Multiplier
   * (Square) is never generated while the grid holds one.
   */
  function Generate(b: Board, cx: int, cy: int, d: Draw): (res: (Board, Tile))
    requires ValidDraw(d)
    ensures res.0.cells == b.cells && res.0.tick == b.tick + 1
    ensures res.1 == NewTile(res.1.op, cx, cy)
    ensures res.1.op.Mult? ==> GridCensus(b.cells).multipliers == 0 && res.0.lastMult == res.0.tick
    ensures res.1.op.Square? ==> GridCensus(b.cells).squares == 0 && res.0.lastSquare == res.0.tick
    ensures !res.1.op.Mult? ==> res.0.lastMult == b.lastMult
    ensures !res.1.op.Square? ==> res.0.lastSquare == b.lastSquare
  {
    var g := Decide(GridCensus(b.cells), b.tick + 1, b.lastMult, b.lastSquare, d);
    (Board(b.cells, b.tick + 1, g.lastMult, g.lastSquare), NewTile(g.op, cx, cy))
  }

  /**
   * A new tile from `generateTile(cx, cy)`, given the drop `drop` and stored
   * in cell `(c, r)`: the grid is counted before the store.
   */
  function Place(b: Board, c: int, r: int, cx: int, cy: int, drop: int, d: Draw): (b': Board)
    requires Sized(b.cells) && 0 <= c < GRID_SIZE && 0 <= r < GRID_SIZE && ValidDraw(d)
    ensures Sized(b'.cells) && b'.tick == b.tick + 1
    ensures b'.lastMult == b.lastMult || b'.lastMult == b'.tick
    ensures b'.lastSquare == b.lastSquare || b'.lastSquare == b'.tick
  {
    var g := Generate(b, cx, cy, d);
    g.0.(cells := Put(g.0.cells, c, r, Some(g.1.(drop := drop))))
  }

  /**
   * The refill of column `c` with `n` new tiles, from `negRow == k` on: the
   * tile generated for `negRow` is centred `negRow + 1` rows above the grid,
   * whose corner is `(x0, y0)`, and stored in row `n - negRow - 1` with the
   * drop `n * TILE_SIZE`.
   */
  function RefillColumnFrom(b: Board, c: int, n: int, k: int, x0: int, y0: int, draws: seq<Draw>): (b': Board)
    requires Sized(b.cells) && 0 <= c < GRID_SIZE && 0 <= k <= n <= GRID_SIZE && n <= |draws| && ValidDraws(draws)
    ensures Sized(b'.cells) && b'.tick == b.tick + n - k
    // `b` in the measure keeps the verifier unfolding one step at a time even where `k` is a known number.
    decreases n - k, b
  {
    if k == n then b
    else
      var b' := Place(b, c, n - k - 1, x0 + c * TILE_SIZE + TILE_SIZE / 2, y0 - (k + 1) * TILE_SIZE + TILE_SIZE / 2, n * TILE_SIZE, draws[k]);
      RefillColumnFrom(b', c, n, k + 1, x0, y0, draws)
  }

  /** One step of the refill of column `c`. */
  lemma RefillColumnNext(b: Board, c: int, n: int, k: int, x0: int, y0: int, draws: seq<Draw>)
    requires Sized(b.cells) && 0 <= c < GRID_SIZE && 0 <= k < n <= GRID_SIZE && n <= |draws| && ValidDraws(draws)
    ensures RefillColumnFrom(b, c, n, k, x0, y0, draws) ==
      RefillColumnFrom(Place(b, c, n - k - 1, x0 + c * TILE_SIZE + TILE_SIZE / 2, y0 - (k + 1) * TILE_SIZE + TILE_SIZE / 2, n * TILE_SIZE, draws[k]), c, n, k + 1, x0, y0, draws)
  {
  }

  /** One step of the refill of column `c` taken from `b` to `b'` leaves the rest of the refill to run from `b'`. */
  lemma RefillColumnAdvance(b: Board, b': Board, b0: Board, c: int, n: int, k: int, x0: int, y0: int, draws: seq<Draw>)
    requires Sized(b.cells) && Sized(b0.cells) && 0 <= c < GRID_SIZE && 0 <= k < n <= GRID_SIZE && n <= |draws| && ValidDraws(draws)
    requires b' == Place(b, c, n - k - 1, x0 + c * TILE_SIZE + TILE_SIZE / 2, y0 - (k + 1) * TILE_SIZE + TILE_SIZE / 2, n * TILE_SIZE, draws[k])
    requires RefillColumnFrom(b, c, n, k, x0, y0, draws) == RefillColumnFrom(b0, c, n, 0, x0, y0, draws)
    ensures Sized(b'.cells) && RefillColumnFrom(b', c, n, k + 1, x0, y0, draws) == RefillColumnFrom(b0, c, n, 0, x0, y0, draws)
  {
    RefillColumnNext(b, c, n, k, x0, y0, draws);
  }

  /** A refill of column `c` with no step left to run is the whole refill. */
  lemma RefillColumnDone(b: Board, b0: Board, c: int, n: int, x0: int, y0: int, draws: seq<Draw>)
    requires Sized(b.cells) && Sized(b0.cells) && 0 <= c < GRID_SIZE && 0 <= n <= GRID_SIZE && n <= |draws| && ValidDraws(draws)
    requires RefillColumnFrom(b, c, n, n, x0, y0, draws) == RefillColumnFrom(b0, c, n, 0, x0, y0, draws)
    ensures b == RefillColumnFrom(b0, c, n, 0, x0, y0, draws)
  {
  }

  /** The refill of every column from `col` on, `counts[c]` new tiles in column `c`, the draws consumed in order. */
  function RefillFrom(b: Board, counts: seq<int>, col: int, x0: int, y0: int, draws: seq<Draw>): (b': Board)
    requires Sized(b.cells) && |counts| == GRID_SIZE && forall c :: 0 <= c < GRID_SIZE ==> 0 <= counts[c] <= GRID_SIZE
    requires 0 <= col <= GRID_SIZE && |draws| >= (GRID_SIZE - col) * GRID_SIZE && ValidDraws(draws)
    ensures Sized(b'.cells)
    // `b` in the measure keeps the verifier unfolding one step at a time even where the column is a known number.
    decreases GRID_SIZE - col, b
  {
    if col == GRID_SIZE then b
    else RefillFrom(RefillColumnFrom(b, col, counts[col], 0, x0, y0, draws), counts, col + 1, x0, y0, draws[counts[col]..])
  }

  /** The refill of column `col` taken from `b` to `b'` leaves the refill of the columns after it to run from `b'`. */
  lemma RefillAdvance(b: Board, b': Board, b0: Board, counts: seq<int>, col: int, x0: int, y0: int, draws: seq<Draw>, rest: seq<Draw>)
    requires Sized(b.cells) && |counts| == GRID_SIZE && forall c :: 0 <= c < GRID_SIZE ==> 0 <= counts[c] <= GRID_SIZE
    requires 0 <= col < GRID_SIZE && |draws| >= (GRID_SIZE - col) * GRID_SIZE && ValidDraws(draws)
    requires b' == RefillColumnFrom(b, col, counts[col], 0, x0, y0, draws) && rest == draws[counts[col]..]
    requires RefillFrom(b, counts, col, x0, y0, draws) == b0
    ensures RefillFrom(b', counts, col + 1, x0, y0, rest) == b0
  {
  }

  /** Every column shifted down over its empty cells. */
  function ShiftGrid(cells: seq<seq<Option<Tile>>>): (shifted: seq<seq<Option<Tile>>>)
    ensures |shifted| == |cells| && forall c :: 0 <= c < |cells| ==> shifted[c] == Shifted(cells[c])
  {
    seq(|cells|, c requires 0 <= c < |cells| => Shifted(cells[c]))
  }

  /**
   * The second stage of `vanishFrame` on `b`: every column is shifted, then
   * refilled with as many new tiles as it had empty cells.
   */
  function Compacted(b: Board, x0: int, y0: int, draws: seq<Draw>): (b': Board)
    requires Sized(b.cells) && |draws| >= GRID_SIZE * GRID_SIZE && ValidDraws(draws)
    ensures Sized(b'.cells)
  {
    RefillFrom(b.(cells := ShiftGrid(b.cells)), HoleCounts(b.cells), 0, x0, y0, draws)
  }

  /** The grid once the tiles of the path `p` have left it. */
  function Carve(cells: seq<seq<Option<Tile>>>, p: seq<Coord>): (carved: seq<seq<Option<Tile>>>)
    ensures |carved| == |cells|
    ensures forall c :: 0 <= c < |cells| ==> |carved[c]| == |cells[c]|
    ensures forall c, r :: 0 <= c < |cells| && 0 <= r < |cells[c]| ==>
      carved[c][r] == if Coord(c, r) in p then None else cells[c][r]
  {
    seq(|cells|, c requires 0 <= c < |cells| =>
      seq(|cells[c]|, r requires 0 <= r < |cells[c]| => if Coord(c, r) in p then None else cells[c][r]))
  }

  /** The state a vanish leaves once the tiles of `p` are gone: carved, shifted and refilled, nothing fallen yet. */
  function Refilled(b: Board, p: seq<Coord>, x0: int, y0: int, draws: seq<Draw>): (b': Board)
    requires Sized(b.cells) && |draws| >= GRID_SIZE * GRID_SIZE && ValidDraws(draws)
    ensures Sized(b'.cells)
  {
    Compacted(b.(cells := Carve(b.cells, p)), x0, y0, draws)
  }

  /** The frame of `vanishFrame` that finds the tiles of `p` gone: the refill, then the first frame of the drop. */
  function FinalFrame(b: Board, p: seq<Coord>, x0: int, y0: int, draws: seq<Draw>): (b': Board)
    requires Sized(b.cells) && |draws| >= GRID_SIZE * GRID_SIZE && ValidDraws(draws)
  {
    var k := Refilled(b, p, x0, y0, draws);
    k.(cells := GridFall(k.cells))
  }

  /**
   * The inner loop of `init` over column `col`, from row `row` on: each
   * cell gets a new tile centred in it, the grid's corner being `(x0, y0)`
   * and the draw of cell `(c, r)` being `draws[c * GRID_SIZE + r]`.
   */
  function InitColumnFrom(b: Board, col: int, row: int, x0: int, y0: int, draws: seq<Draw>): (b': Board)
    requires Sized(b.cells) && 0 <= col < GRID_SIZE && 0 <= row <= GRID_SIZE
    requires |draws| >= GRID_SIZE * GRID_SIZE && ValidDraws(draws)
    ensures Sized(b'.cells) && b'.tick == b.tick + GRID_SIZE - row
    // `b` in the measure keeps the verifier unfolding one step at a time even where the row is a known number.
    decreases GRID_SIZE - row, b
  {
    if row == GRID_SIZE then b
    else
      var b' := Place(b, col, row, x0 + col * TILE_SIZE + TILE_SIZE / 2, y0 + row * TILE_SIZE + TILE_SIZE / 2, 0, draws[col * GRID_SIZE + row]);
      InitColumnFrom(b', col, row + 1, x0, y0, draws)
  }

  /** `init` from column `col` on, column by column. */
  function InitFrom(b: Board, col: int, x0: int, y0: int, draws: seq<Draw>): (b': Board)
    requires Sized(b.cells) && 0 <= col <= GRID_SIZE
    requires |draws| >= GRID_SIZE * GRID_SIZE && ValidDraws(draws)
    ensures Sized(b'.cells) && b'.tick == b.tick + (GRID_SIZE - col) * GRID_SIZE
    // `b` in the measure keeps the verifier unfolding one step at a time even where the column is a known number.
    decreases GRID_SIZE - col, b
  {
    if col == GRID_SIZE then b
    else InitFrom(InitColumnFrom(b, col, 0, x0, y0, draws), col + 1, x0, y0, draws)
  }

  /** Column `col` of `init` taken from `b` to `b'` leaves the columns after it to run from `b'`. */
  lemma InitColumnStep(b: Board, b': Board, col: int, x0: int, y0: int, draws: seq<Draw>)
    requires Sized(b.cells) && 0 <= col < GRID_SIZE
    requires |draws| >= GRID_SIZE * GRID_SIZE && ValidDraws(draws)
    requires b' == InitColumnFrom(b, col, 0, x0, y0, draws)
    ensures Sized(b'.cells) && InitFrom(b', col + 1, x0, y0, draws) == InitFrom(b, col, x0, y0, draws)
  {
  }

  /** The store in cell `(col, row)` taken from `b` to `b'` leaves the rest of the column to run from `b'`, on to the same board. */
  lemma InitAdvance(b: Board, b': Board, goal: Board, col: int, row: int, x0: int, y0: int, draws: seq<Draw>)
    requires Sized(b.cells) && 0 <= col < GRID_SIZE && 0 <= row < GRID_SIZE
    requires |draws| >= GRID_SIZE * GRID_SIZE && ValidDraws(draws)
    requires b' == Place(b, col, row, x0 + col * TILE_SIZE + TILE_SIZE / 2, y0 + row * TILE_SIZE + TILE_SIZE / 2, 0, draws[col * GRID_SIZE + row])
    requires InitColumnFrom(b, col, row, x0, y0, draws) == goal
    ensures Sized(b'.cells) && InitColumnFrom(b', col, row + 1, x0, y0, draws) == goal
  {
  }

  /** `x` is a new full-size tile centred in cell `(c, r)` of the grid whose corner is `(x0, y0)`, with nothing left to fall. */
  ghost predicate CentredIn(x: Option<Tile>, c: int, r: int, x0: int, y0: int)
  {
    x.Some? && x.value.cx == x0 + c * TILE_SIZE + TILE_SIZE / 2 && x.value.cy == y0 + r * TILE_SIZE + TILE_SIZE / 2 &&
    x.value.drop == 0 && x.value.tileSize == TILE_SIZE
  }

  /** Column `col` of `init` from row `row` on centres a new tile in each of those rows and leaves every other cell alone. */
  lemma {:induction false} InitColumnCentres(b: Board, col: int, row: int, x0: int, y0: int, draws: seq<Draw>)
    requires Sized(b.cells) && 0 <= col < GRID_SIZE && 0 <= row <= GRID_SIZE
    requires |draws| >= GRID_SIZE * GRID_SIZE && ValidDraws(draws)
    ensures var b' := InitColumnFrom(b, col, row, x0, y0, draws);
      (forall r :: row <= r < GRID_SIZE ==> CentredIn(b'.cells[col][r], col, r, x0, y0)) &&
      forall c, r :: 0 <= c < GRID_SIZE && 0 <= r < GRID_SIZE && (c != col || r < row) ==> b'.cells[c][r] == b.cells[c][r]
    decreases GRID_SIZE - row
  {
    if row < GRID_SIZE {
      var p := Place(b, col, row, x0 + col * TILE_SIZE + TILE_SIZE / 2, y0 + row * TILE_SIZE + TILE_SIZE / 2, 0, draws[col * GRID_SIZE + row]);
      assert CentredIn(p.cells[col][row], col, row, x0, y0);
      InitColumnCentres(p, col, row + 1, x0, y0, draws);
    }
  }

  /** `init` from column `col` on centres a new tile in every cell of those columns and leaves the columns before alone. */
  lemma {:induction false} InitCentres(b: Board, col: int, x0: int, y0: int, draws: seq<Draw>)
    requires Sized(b.cells) && 0 <= col <= GRID_SIZE
    requires |draws| >= GRID_SIZE * GRID_SIZE && ValidDraws(draws)
    ensures var b' := InitFrom(b, col, x0, y0, draws);
      (forall c, r :: col <= c < GRID_SIZE && 0 <= r < GRID_SIZE ==> CentredIn(b'.cells[c][r], c, r, x0, y0)) &&
      forall c, r :: 0 <= c < col && 0 <= r < GRID_SIZE ==> b'.cells[c][r] == b.cells[c][r]
    decreases GRID_SIZE - col
  {
    if col < GRID_SIZE {
      var b1 := InitColumnFrom(b, col, 0, x0, y0, draws);
      InitColumnCentres(b, col, 0, x0, y0, draws);
      InitCentres(b1, col + 1, x0, y0, draws);
      assert InitFrom(b, col, x0, y0, draws) == InitFrom(b1, col + 1, x0, y0, draws);
      CentresJoin(b.cells, b1.cells, InitFrom(b1, col + 1, x0, y0, draws).cells, col, x0, y0);
    }
  }

  /** Column `col` centred from `cells` to `cells1`, then the columns after it from `cells1` to `cells2`: the columns from `col` on are centred. */
  lemma CentresJoin(cells: seq<seq<Option<Tile>>>, cells1: seq<seq<Option<Tile>>>, cells2: seq<seq<Option<Tile>>>, col: int, x0: int, y0: int)
    requires Sized(cells) && Sized(cells1) && Sized(cells2) && 0 <= col < GRID_SIZE
    requires forall r :: 0 <= r < GRID_SIZE ==> CentredIn(cells1[col][r], col, r, x0, y0)
    requires forall c, r :: 0 <= c < GRID_SIZE && 0 <= r < GRID_SIZE && c != col ==> cells1[c][r] == cells[c][r]
    requires forall c, r :: col + 1 <= c < GRID_SIZE && 0 <= r < GRID_SIZE ==> CentredIn(cells2[c][r], c, r, x0, y0)
    requires forall c, r :: 0 <= c < col + 1 && 0 <= r < GRID_SIZE ==> cells2[c][r] == cells1[c][r]
    ensures forall c, r :: col <= c < GRID_SIZE && 0 <= r < GRID_SIZE ==> CentredIn(cells2[c][r], c, r, x0, y0)
    ensures forall c, r :: 0 <= c < col && 0 <= r < GRID_SIZE ==> cells2[c][r] == cells[c][r]
  {
  }

  /** Rows `lo[c]` up to `hi[c]` of every column `c`: the part of the grid already in its final state. */
  function Window(cells: seq<seq<Option<Tile>>>, lo: seq<int>, hi: seq<int>): (w: seq<seq<Option<Tile>>>)
    requires |lo| == |cells| && |hi| == |cells|
    requires forall c :: 0 <= c < |cells| ==> 0 <= lo[c] <= hi[c] <= |cells[c]|
    ensures |w| == |cells| && forall c :: 0 <= c < |cells| ==> w[c] == cells[c][lo[c]..hi[c]]
  {
    seq(|cells|, c requires 0 <= c < |cells| => cells[c][lo[c]..hi[c]])
  }

  lemma WindowCovered(cells: seq<seq<Option<Tile>>>, lo: seq<int>, hi: seq<int>)
    requires |lo| == |cells| && |hi| == |cells|
    requires forall c :: 0 <= c < |cells| ==> 0 <= lo[c] <= hi[c] <= |cells[c]|
    ensures Covers(GridCensus(cells), GridCensus(Window(cells, lo, hi)))
  {
    var w := Window(cells, lo, hi);
    forall c | 0 <= c < |cells|
      ensures Covers(ColumnCensus(cells[c]), ColumnCensus(w[c]))
    {
      ColumnCensusPart(cells[c], lo[c], hi[c]);
    }
    GridCensusCoversAll(cells, w);
  }

  /** Storing `x` just above the window of column `c` adds it at the window's top. */
  lemma PutAbove(cells: seq<seq<Option<Tile>>>, lo: seq<int>, hi: seq<int>, c: int, x: Option<Tile>)
    requires Sized(cells) && |lo| == GRID_SIZE && |hi| == GRID_SIZE && 0 <= c < GRID_SIZE
    requires forall c' :: 0 <= c' < GRID_SIZE ==> 0 <= lo[c'] <= hi[c'] <= GRID_SIZE
    requires 0 < lo[c]
    ensures var w, w' := Window(cells, lo, hi), Window(Put(cells, c, lo[c] - 1, x), lo[c := lo[c] - 1], hi);
      w'[c] == [x] + w[c] && forall c' :: 0 <= c' < GRID_SIZE && c' != c ==> w'[c'] == w[c']
  {
    var cells' := Put(cells, c, lo[c] - 1, x);
    assert cells'[c] == cells[c][lo[c] - 1 := x];
    assert cells'[c][lo[c] - 1..hi[c]] == [x] + cells[c][lo[c]..hi[c]];
    assert forall c' :: 0 <= c' < GRID_SIZE && c' != c ==> cells'[c'] == cells[c'];
  }

  /** Storing `x` just below the window of column `c` adds it at the window's bottom. */
  lemma PutBelow(cells: seq<seq<Option<Tile>>>, lo: seq<int>, hi: seq<int>, c: int, x: Option<Tile>)
    requires Sized(cells) && |lo| == GRID_SIZE && |hi| == GRID_SIZE && 0 <= c < GRID_SIZE
    requires forall c' :: 0 <= c' < GRID_SIZE ==> 0 <= lo[c'] <= hi[c'] <= GRID_SIZE
    requires hi[c] < GRID_SIZE
    ensures var w, w' := Window(cells, lo, hi), Window(Put(cells, c, hi[c], x), lo, hi[c := hi[c] + 1]);
      w'[c] == w[c] + [x] && forall c' :: 0 <= c' < GRID_SIZE && c' != c ==> w'[c'] == w[c']
  {
    var cells' := Put(cells, c, hi[c], x);
    assert cells'[c] == cells[c][hi[c] := x];
    assert cells'[c][lo[c]..hi[c] + 1] == cells[c][lo[c]..hi[c]] + [x];
    assert forall c' :: 0 <= c' < GRID_SIZE && c' != c ==> cells'[c'] == cells[c'];
  }

  function Constant(v: int): (s: seq<int>)
    ensures |s| == GRID_SIZE && forall c :: 0 <= c < GRID_SIZE ==> s[c] == v
  {
    seq(GRID_SIZE, c => v)
  }

  /** A window over whole columns is the grid. */
  lemma WholeWindow(cells: seq<seq<Option<Tile>>>)
    requires Sized(cells)
    ensures Window(cells, Constant(0), Constant(GRID_SIZE)) == cells
  {
    var w := Window(cells, Constant(0), Constant(GRID_SIZE));
    forall c | 0 <= c < GRID_SIZE
      ensures w[c] == cells[c]
    {
      assert cells[c][0..GRID_SIZE] == cells[c];
    }
  }

  /** At most one Multiplier and one Square from row `lo[c]` down in every column `c`. */
  predicate ScarceBelow(cells: seq<seq<Option<Tile>>>, lo: seq<int>)
  {
    Sized(cells) && |lo| == GRID_SIZE && (forall c :: 0 <= c < GRID_SIZE ==> 0 <= lo[c] <= GRID_SIZE) &&
    Scarce(GridCensus(Window(cells, lo, Constant(GRID_SIZE))))
  }

  /**
   * One step of the refill of column `c`: the tile generated on the census
   * of the whole grid and stored just above the column's final part keeps
   * at most one Multiplier and one Square in that part.
   */
  lemma RefillStepScarce(b: Board, c: int, n: int, k: int, x0: int, y0: int, draws: seq<Draw>, lo: seq<int>)
    requires Sized(b.cells) && 0 <= c < GRID_SIZE && 0 <= k < n <= GRID_SIZE && n <= |draws| && ValidDraws(draws)
    requires ScarceBelow(b.cells, lo) && lo[c] == n - k
    ensures ScarceBelow(Place(b, c, n - k - 1, x0 + c * TILE_SIZE + TILE_SIZE / 2, y0 - (k + 1) * TILE_SIZE + TILE_SIZE / 2, n * TILE_SIZE, draws[k]).cells,
      lo[c := n - k - 1])
  {
    var g := Generate(b, x0 + c * TILE_SIZE + TILE_SIZE / 2, y0 - (k + 1) * TILE_SIZE + TILE_SIZE / 2, draws[k]);
    var t := g.1.(drop := n * TILE_SIZE);
    assert Place(b, c, n - k - 1, x0 + c * TILE_SIZE + TILE_SIZE / 2, y0 - (k + 1) * TILE_SIZE + TILE_SIZE / 2, n * TILE_SIZE, draws[k]).cells ==
      Put(b.cells, c, n - k - 1, Some(t));
    assert t.op.Mult? ==> GridCensus(b.cells).multipliers == 0;
    assert t.op.Square? ==> GridCensus(b.cells).squares == 0;
    var cells' := Put(b.cells, c, n - k - 1, Some(t));
    var w := Window(b.cells, lo, Constant(GRID_SIZE));
    var w' := Window(cells', lo[c := n - k - 1], Constant(GRID_SIZE));
    PutAbove(b.cells, lo, Constant(GRID_SIZE), c, Some(t));
    WindowCovered(b.cells, lo, Constant(GRID_SIZE));
    GrowScarce(w, w', c, t, GridCensus(b.cells));
  }

  /** One step of the refill of column `c`, and the part of the grid it keeps scarce. */
  lemma RefillColumnStep(b: Board, c: int, n: int, k: int, x0: int, y0: int, draws: seq<Draw>, lo: seq<int>) returns (b': Board)
    requires Sized(b.cells) && 0 <= c < GRID_SIZE && 0 <= k < n <= GRID_SIZE && n <= |draws| && ValidDraws(draws)
    requires ScarceBelow(b.cells, lo) && lo[c] == n - k
    ensures Sized(b'.cells) && ScarceBelow(b'.cells, lo[c := n - k - 1])
    ensures RefillColumnFrom(b, c, n, k, x0, y0, draws) == RefillColumnFrom(b', c, n, k + 1, x0, y0, draws)
  {
    b' := Place(b, c, n - k - 1, x0 + c * TILE_SIZE + TILE_SIZE / 2, y0 - (k + 1) * TILE_SIZE + TILE_SIZE / 2, n * TILE_SIZE, draws[k]);
    RefillStepScarce(b, c, n, k, x0, y0, draws, lo);
    RefillColumnNext(b, c, n, k, x0, y0, draws);
  }

  /**
   * The refill of one column keeps at most one Multiplier and one Square in
   * the final part of the grid: column `c` from row `n - k` down, and every
   * other column from row `lo[c']` down. Once the column is refilled, `r`,
   * the window `lo0` takes it in whole.
   */
  lemma {:induction false} RefillColumnScarce(b: Board, c: int, n: int, k: int, x0: int, y0: int, draws: seq<Draw>, lo: seq<int>, lo0: seq<int>, r: Board)
    requires Sized(b.cells) && 0 <= c < GRID_SIZE && 0 <= k <= n <= GRID_SIZE && n <= |draws| && ValidDraws(draws)
    requires ScarceBelow(b.cells, lo) && lo[c] == n - k
    requires |lo0| == GRID_SIZE && forall c' :: 0 <= c' < GRID_SIZE ==> lo0[c'] == if c' == c then 0 else lo[c']
    requires r == RefillColumnFrom(b, c, n, k, x0, y0, draws)
    ensures ScarceBelow(r.cells, lo0)
    decreases n - k
  {
    if k == n {
      assert lo0 == lo;
    } else {
      var b' := RefillColumnStep(b, c, n, k, x0, y0, draws, lo);
      RefillColumnScarce(b', c, n, k + 1, x0, y0, draws, lo[c := n - k - 1], lo0, r);
    }
  }

  /** The final part of the grid while the refill is at column `col`: whole columns before it, the survivors from it on. */
  function Lows(counts: seq<int>, col: int): (lo: seq<int>)
    requires |counts| == GRID_SIZE
    ensures |lo| == GRID_SIZE && forall c :: 0 <= c < GRID_SIZE ==> lo[c] == if c < col then 0 else counts[c]
  {
    seq(GRID_SIZE, c requires 0 <= c < GRID_SIZE => if c < col then 0 else counts[c])
  }

  lemma {:induction false} RefillScarce(b: Board, counts: seq<int>, col: int, x0: int, y0: int, draws: seq<Draw>)
    requires Sized(b.cells) && |counts| == GRID_SIZE && forall c :: 0 <= c < GRID_SIZE ==> 0 <= counts[c] <= GRID_SIZE
    requires 0 <= col <= GRID_SIZE && |draws| >= (GRID_SIZE - col) * GRID_SIZE && ValidDraws(draws)
    requires ScarceBelow(b.cells, Lows(counts, col))
    ensures Scarce(GridCensus(RefillFrom(b, counts, col, x0, y0, draws).cells))
    decreases GRID_SIZE - col
  {
    if col == GRID_SIZE {
      assert Lows(counts, col) == Constant(0);
      WholeWindow(b.cells);
    } else {
      RefillColumnScarce(b, col, counts[col], 0, x0, y0, draws, Lows(counts, col), Lows(counts, col + 1),
        RefillColumnFrom(b, col, counts[col], 0, x0, y0, draws));
      RefillScarce(RefillColumnFrom(b, col, counts[col], 0, x0, y0, draws), counts, col + 1, x0, y0, draws[counts[col]..]);
    }
  }

  /** The census of a single cell. */
  lemma CellCensus(x: Option<Tile>)
    ensures ColumnCensus([x]) == Tally(Census(0, 0, 0, 0), x)
  {
    var none: seq<Option<Tile>> := [];
    assert [x][..0] == none;
  }

  /** The survivors of a shift are the column's tiles: the census cannot tell them apart. */
  lemma {:induction false} FallenCensus(col: seq<Option<Tile>>)
    ensures ColumnCensus(Lift(Fallen(col))) == ColumnCensus(col)
    decreases |col|
  {
    if col != [] {
      var rest := col[1..];
      var head := match col[0]
        case None => []
        case Some(t) => [t.(drop := Holes(rest) * TILE_SIZE)];
      assert Fallen(col) == head + Fallen(rest);
      LiftAppend(head, Fallen(rest));
      ColumnCensusAppend(Lift(head), Lift(Fallen(rest)));
      FallenCensus(rest);
      SplitFirst(col);
      ColumnCensusAppend([col[0]], rest);
      HeadCensus(col[0], Holes(rest) * TILE_SIZE);
    }
  }

  lemma SplitFirst(col: seq<Option<Tile>>)
    requires col != []
    ensures col == [col[0]] + col[1..]
  {
  }

  lemma LiftAppend(a: seq<Tile>, b: seq<Tile>)
    ensures Lift(a + b) == Lift(a) + Lift(b)
  {
  }

  /** A cell's tile, whatever its way to fall, counts as the cell does. */
  lemma HeadCensus(x: Option<Tile>, drop: int)
    ensures ColumnCensus(Lift(match x case None => [] case Some(t) => [t.(drop := drop)])) == ColumnCensus([x])
  {
    var head := match x case None => [] case Some(t) => [t.(drop := drop)];
    CellCensus(x);
    if x.Some? {
      CellCensus(Lift(head)[0]);
      assert Lift(head) == [Lift(head)[0]];
    } else {
      assert Lift(head) == [];
    }
  }

  /**
   * A compaction never makes a second Multiplier or Square: the survivors
   * are the grid's tiles, and every new tile is chosen on a census that
   * counts all of them and every tile refilled before it.
   */
  lemma CompactedScarce(b: Board, x0: int, y0: int, draws: seq<Draw>)
    requires Sized(b.cells) && |draws| >= GRID_SIZE * GRID_SIZE && ValidDraws(draws)
    requires Scarce(GridCensus(b.cells))
    ensures Scarce(GridCensus(Compacted(b, x0, y0, draws).cells))
  {
    var counts := HoleCounts(b.cells);
    var shifted := ShiftGrid(b.cells);
    var w := Window(shifted, Lows(counts, 0), Constant(GRID_SIZE));
    forall c | 0 <= c < GRID_SIZE
      ensures ColumnCensus(w[c]) == ColumnCensus(b.cells[c])
    {
      assert w[c] == Lift(Fallen(b.cells[c]));
      FallenCensus(b.cells[c]);
    }
    GridCensusSame(w, b.cells);
    RefillScarce(b.(cells := shifted), counts, 0, x0, y0, draws);
  }

  /** One frame of the drop moves tiles, never changes one. */
  lemma FallCensus(cells: seq<seq<Option<Tile>>>)
    ensures GridCensus(GridFall(cells)) == GridCensus(cells)
  {
    GridCensusSameOps(GridFall(cells), cells);
  }

  /**
   * A vanish keeps at most one Multiplier and one Square on the grid: the
   * path's tiles leave, the rest shift, the new tiles never add a second
   * one, and the first frame of the drop only moves tiles.
   */
  lemma FinalFrameScarce(b: Board, p: seq<Coord>, x0: int, y0: int, draws: seq<Draw>)
    requires Sized(b.cells) && |draws| >= GRID_SIZE * GRID_SIZE && ValidDraws(draws)
    requires Scarce(GridCensus(b.cells))
    ensures Scarce(GridCensus(FinalFrame(b, p, x0, y0, draws).cells))
  {
    var carved := Carve(b.cells, p);
    GridCensusEmptied(b.cells, carved);
    CompactedScarce(b.(cells := carved), x0, y0, draws);
    FallCensus(Refilled(b, p, x0, y0, draws).cells);
  }

  /** The part of the grid `init` has filled once it reaches `(col, row)`. */
  function Highs(col: int, row: int): (hi: seq<int>)
    ensures |hi| == GRID_SIZE && forall c :: 0 <= c < GRID_SIZE ==> hi[c] == if c < col then GRID_SIZE else if c == col then row else 0
  {
    seq(GRID_SIZE, c requires 0 <= c < GRID_SIZE => if c < col then GRID_SIZE else if c == col then row else 0)
  }

  /**
   * The inner loop of `init` keeps the grid scarce: if the part of the grid
   * it has already stored, together with the columns before `col`, holds at
   * most one Multiplier and one Square, so do all columns up to `col` once
   * the loop is done.
   */
  lemma {:induction false} InitColumnScarce(b: Board, col: int, row: int, x0: int, y0: int, draws: seq<Draw>)
    requires Sized(b.cells) && 0 <= col < GRID_SIZE && 0 <= row <= GRID_SIZE
    requires |draws| >= GRID_SIZE * GRID_SIZE && ValidDraws(draws)
    requires Scarce(GridCensus(Window(b.cells, Constant(0), Highs(col, row))))
    ensures Scarce(GridCensus(Window(InitColumnFrom(b, col, row, x0, y0, draws).cells, Constant(0), Highs(col + 1, 0))))
    decreases GRID_SIZE - row
  {
    if row == GRID_SIZE {
      assert Highs(col, row) == Highs(col + 1, 0);
    } else {
      var b' := Place(b, col, row, x0 + col * TILE_SIZE + TILE_SIZE / 2, y0 + row * TILE_SIZE + TILE_SIZE / 2, 0, draws[col * GRID_SIZE + row]);
      assert InitColumnFrom(b, col, row, x0, y0, draws) == InitColumnFrom(b', col, row + 1, x0, y0, draws);
      InitPlaceScarce(b, col, row, x0, y0, draws);
      InitColumnScarce(b', col, row + 1, x0, y0, draws);
    }
  }

  /** The store of `init` in cell `(col, row)` keeps scarce the part of the grid already filled, now one cell larger. */
  lemma InitPlaceScarce(b: Board, col: int, row: int, x0: int, y0: int, draws: seq<Draw>)
    requires Sized(b.cells) && 0 <= col < GRID_SIZE && 0 <= row < GRID_SIZE
    requires |draws| >= GRID_SIZE * GRID_SIZE && ValidDraws(draws)
    requires Scarce(GridCensus(Window(b.cells, Constant(0), Highs(col, row))))
    ensures var b' := Place(b, col, row, x0 + col * TILE_SIZE + TILE_SIZE / 2, y0 + row * TILE_SIZE + TILE_SIZE / 2, 0, draws[col * GRID_SIZE + row]);
      Scarce(GridCensus(Window(b'.cells, Constant(0), Highs(col, row + 1))))
  {
    var g := Generate(b, x0 + col * TILE_SIZE + TILE_SIZE / 2, y0 + row * TILE_SIZE + TILE_SIZE / 2, draws[col * GRID_SIZE + row]);
    var t := g.1.(drop := 0);
    var b' := Place(b, col, row, x0 + col * TILE_SIZE + TILE_SIZE / 2, y0 + row * TILE_SIZE + TILE_SIZE / 2, 0, draws[col * GRID_SIZE + row]);
    assert b'.cells == Put(b.cells, col, row, Some(t));
    var w := Window(b.cells, Constant(0), Highs(col, row));
    var w' := Window(b'.cells, Constant(0), Highs(col, row + 1));
    PutBelow(b.cells, Constant(0), Highs(col, row), col, Some(t));
    assert Highs(col, row)[col := row + 1] == Highs(col, row + 1);
    WindowCovered(b.cells, Constant(0), Highs(col, row));
    GrowScarce(w, w', col, t, GridCensus(b.cells));
  }

  /** `init` from column `col` on leaves the grid scarce if the columns before `col` are. */
  lemma {:induction false} InitScarce(b: Board, col: int, x0: int, y0: int, draws: seq<Draw>)
    requires Sized(b.cells) && 0 <= col <= GRID_SIZE
    requires |draws| >= GRID_SIZE * GRID_SIZE && ValidDraws(draws)
    requires Scarce(GridCensus(Window(b.cells, Constant(0), Highs(col, 0))))
    ensures Scarce(GridCensus(InitFrom(b, col, x0, y0, draws).cells))
    decreases GRID_SIZE - col
  {
    if col == GRID_SIZE {
      assert Highs(col, 0) == Constant(GRID_SIZE);
      WholeWindow(b.cells);
    } else {
      InitColumnScarce(b, col, 0, x0, y0, draws);
      InitScarce(InitColumnFrom(b, col, 0, x0, y0, draws), col + 1, x0, y0, draws);
    }
  }

  lemma {:induction false} EmptyWindow(w: seq<seq<Option<Tile>>>, n: int)
    requires 0 <= n <= |w| && forall c :: 0 <= c < |w| ==> w[c] == []
    ensures GridCensus(w[..n]) == Census(0, 0, 0, 0)
    decreases n
  {
    if n > 0 {
      assert w[..n][..n - 1] == w[..n - 1];
      EmptyWindow(w, n - 1);
    }
    if n == |w| {
      assert w[..n] == w;
    }
  }

  /**
   * `init` leaves at most one Multiplier and one Square on the grid,
   * whatever the grid held before: the old tiles it has not yet replaced
   * only make the census larger.
   */
  lemma InitScarceAll(b: Board, x0: int, y0: int, draws: seq<Draw>)
    requires Sized(b.cells) && |draws| >= GRID_SIZE * GRID_SIZE && ValidDraws(draws)
    ensures Scarce(GridCensus(InitFrom(b, 0, x0, y0, draws).cells))
  {
    var w := Window(b.cells, Constant(0), Highs(0, 0));
    EmptyWindow(w, GRID_SIZE);
    assert w[..GRID_SIZE] == w;
    InitScarce(b, 0, x0, y0, draws);
  }

  /** Every cell holds a tile with nothing left to fall. */
  predicate Still(cells: seq<seq<Option<Tile>>>)
  {
    forall c, r :: 0 <= c < |cells| && 0 <= r < |cells[c]| ==> cells[c][r].Some? && cells[c][r].value.drop == 0
  }

  lemma {:induction false} FallenStill(col: seq<Option<Tile>>)
    requires forall i :: 0 <= i < |col| ==> col[i].Some? && col[i].value.drop == 0
    ensures Holes(col) == 0 && Lift(Fallen(col)) == col
    decreases |col|
  {
    HolesNone(col);
    if col != [] {
      var rest := col[1..];
      assert forall i :: 0 <= i < |rest| ==> rest[i] == col[i + 1];
      FallenStill(rest);
      assert Fallen(col) == [col[0].value] + Fallen(rest);
      assert Lift(Fallen(col)) == [col[0]] + Lift(Fallen(rest));
    }
  }

  lemma {:induction false} RefillNothing(b: Board, col: int, x0: int, y0: int, draws: seq<Draw>)
    requires Sized(b.cells) && 0 <= col <= GRID_SIZE && |draws| >= (GRID_SIZE - col) * GRID_SIZE && ValidDraws(draws)
    ensures RefillFrom(b, Constant(0), col, x0, y0, draws) == b
    decreases GRID_SIZE - col
  {
    if col < GRID_SIZE {
      assert RefillColumnFrom(b, col, 0, 0, x0, y0, draws) == b;
      assert draws[0..] == draws;
      RefillNothing(b, col + 1, x0, y0, draws);
    }
  }

  lemma CarveNothing(cells: seq<seq<Option<Tile>>>)
    requires Sized(cells)
    ensures Carve(cells, []) == cells
  {
    var carved := Carve(cells, []);
    forall c | 0 <= c < GRID_SIZE
      ensures carved[c] == cells[c]
    {
    }
  }

  lemma ShiftStill(cells: seq<seq<Option<Tile>>>)
    requires Sized(cells) && Still(cells)
    ensures HoleCounts(cells) == Constant(0) && ShiftGrid(cells) == cells
  {
    forall c | 0 <= c < GRID_SIZE
      ensures Holes(cells[c]) == 0 && Shifted(cells[c]) == cells[c]
    {
      FallenStill(cells[c]);
    }
  }

  lemma FallStill(cells: seq<seq<Option<Tile>>>)
    requires Sized(cells) && Still(cells)
    ensures GridFall(cells) == cells && GridMaxDrop(cells) == 0
  {
    var fallen := GridFall(cells);
    forall c | 0 <= c < GRID_SIZE
      ensures fallen[c] == cells[c]
    {
    }
    assert AllGrounded(cells);
    GridMaxDropZero(cells);
  }

  /**
   * A vanish over an empty path on a grid at rest changes nothing: no cell
   * is empty, so no tile moves and none is generated, and the drop that
   * follows ends at once.
   */
  lemma QuietVanish(b: Board, x0: int, y0: int, draws: seq<Draw>)
    requires Sized(b.cells) && |draws| >= GRID_SIZE * GRID_SIZE && ValidDraws(draws) && Still(b.cells)
    ensures Refilled(b, [], x0, y0, draws) == b
    ensures FinalFrame(b, [], x0, y0, draws) == b
    ensures GridMaxDrop(b.cells) == 0
  {
    CarveNothing(b.cells);
    ShiftStill(b.cells);
    RefillNothing(b, 0, x0, y0, draws);
    assert Refilled(b, [], x0, y0, draws) == b;
    FallStill(b.cells);
  }
}
