/**
 * The column shift that closes the gaps left by a cleared path: one column
 * as a sequence of cells from the top row (index 0) to the bottom row.
 * `Shifted` is the column after the bottom-up pass of `vanishFrame`, before
 * the refill writes new tiles into its top rows.
 */
module Compaction {
  import opened Options
  import opened Tiles
  import opened Paths

  /** Number of empty cells: the tiles of the path removed from this column. */
  function Holes(col: seq<Option<Tile>>): (n: nat)
    ensures n <= |col|
    decreases |col|
  {
    if col == [] then 0 else (if col[0].None? then 1 else 0) + Holes(col[1..])
  }

  lemma {:induction false} HolesAppend(a: seq<Option<Tile>>, b: seq<Option<Tile>>)
    ensures Holes(a + b) == Holes(a) + Holes(b)
    decreases |a|
  {
    if a == [] {
      assert a + b == b;
    } else {
      assert (a + b)[1..] == a[1..] + b;
      HolesAppend(a[1..], b);
    }
  }

  /** Splitting a column at row `i` splits its holes. */
  lemma HolesSplit(col: seq<Option<Tile>>, i: int)
    requires 0 <= i <= |col|
    ensures Holes(col) == Holes(col[..i]) + Holes(col[i..])
  {
    assert col == col[..i] + col[i..];
    HolesAppend(col[..i], col[i..]);
  }

  /**
   * The surviving tiles, top to bottom, each with `drop` set to the height of
   * the holes below it: the distance it has to fall.
   */
  function Fallen(col: seq<Option<Tile>>): (s: seq<Tile>)
    ensures |s| + Holes(col) == |col|
    decreases |col|
  {
    if col == [] then []
    else
      var head := match col[0]
        case None => []
        case Some(t) => [t.(drop := Holes(col[1..]) * TILE_SIZE)];
      head + Fallen(col[1..])
  }

  /** The column from row `i` down: its top cell, then the rest. */
  lemma SuffixStep(col: seq<Option<Tile>>, i: int)
    requires 0 <= i < |col|
    ensures Holes(col[i..]) == (if col[i].None? then 1 else 0) + Holes(col[i + 1..])
    ensures Fallen(col[i..]) ==
      (if col[i].None? then [] else [col[i].value.(drop := Holes(col[i + 1..]) * TILE_SIZE)]) + Fallen(col[i + 1..])
  {
    assert col[i..][1..] == col[i + 1..];
  }

  function Lift(s: seq<Tile>): (cells: seq<Option<Tile>>)
    ensures |cells| == |s| && forall i :: 0 <= i < |s| ==> cells[i] == Some(s[i])
  {
    seq(|s|, i requires 0 <= i < |s| => Some(s[i]))
  }

  /**
   * The column after the shift: the survivors occupy the bottom rows, the
   * top `Holes(col)` rows still hold what they held before (stale cells, or
   * holes), waiting for the refill.
   */
  function Shifted(col: seq<Option<Tile>>): (s: seq<Option<Tile>>)
    ensures |s| == |col|
    ensures s[..Holes(col)] == col[..Holes(col)]
    ensures forall r :: Holes(col) <= r < |col| ==> s[r].Some?
  {
    col[..Holes(col)] + Lift(Fallen(col))
  }

  /**
   * The state of the bottom-up pass over a column `col0` once every row
   * below `row` has been visited: `holes` empty cells counted, the rows that
   * the visited tiles were moved to filled, everything above them untouched.
   */
  ghost predicate ShiftState(col0: seq<Option<Tile>>, cur: seq<Option<Tile>>, row: int, holes: int)
  {
    -1 <= row < |col0| && |cur| == |col0| && holes == Holes(col0[row + 1..]) &&
    (forall r :: 0 <= r < row + 1 + holes ==> cur[r] == col0[r]) &&
    (forall r :: row + 1 + holes <= r < |col0| ==> cur[r] == Some(Fallen(col0[row + 1..])[r - row - 1 - holes]))
  }

  /** Visiting row `row`: a hole is counted, a tile is moved `holes` rows down. */
  lemma ShiftVisit(col0: seq<Option<Tile>>, cur: seq<Option<Tile>>, row: int, holes: int)
    requires ShiftState(col0, cur, row, holes) && 0 <= row && cur[row] == col0[row]
    ensures col0[row].None? ==> ShiftState(col0, cur, row - 1, holes + 1)
    ensures col0[row].Some? ==>
      row + holes < |col0| && ShiftState(col0, cur[row + holes := Some(col0[row].value.(drop := holes * TILE_SIZE))], row - 1, holes)
  {
    SuffixStep(col0, row);
  }

  /** Once every row is visited the column is `Shifted(col0)`. */
  lemma ShiftDone(col0: seq<Option<Tile>>, cur: seq<Option<Tile>>, holes: int)
    requires ShiftState(col0, cur, -1, holes)
    ensures holes == Holes(col0) && cur == Shifted(col0)
  {
    assert col0[0..] == col0;
  }

  /** Before the pass nothing is visited. */
  lemma ShiftStart(col0: seq<Option<Tile>>)
    ensures ShiftState(col0, col0, |col0| - 1, 0)
  {
  }

  lemma {:induction false} FallenAt(col: seq<Option<Tile>>, i: int)
    requires 0 <= i < |col| && col[i].Some?
    ensures i - Holes(col[..i]) < |Fallen(col)|
    ensures Fallen(col)[i - Holes(col[..i])] == col[i].value.(drop := Holes(col[i + 1..]) * TILE_SIZE)
    decreases |col|
  {
    if i == 0 {
      assert col[..0] == [];
    } else {
      var rest := col[1..];
      FallenAt(rest, i - 1);
      assert rest[..i - 1] == col[1..i];
      assert rest[i..] == col[i + 1..];
      assert col[..i] == [col[0]] + col[1..i];
      HolesAppend([col[0]], col[1..i]);
      assert [col[0]][1..] == [];
      var head := match col[0]
        case None => []
        case Some(t) => [t.(drop := Holes(rest) * TILE_SIZE)];
      var k := i - 1 - Holes(rest[..i - 1]);
      assert Fallen(col) == head + Fallen(rest);
      assert i - Holes(col[..i]) == |head| + k;
      assert Fallen(col)[|head| + k] == Fallen(rest)[k];
    }
  }

  /**
   * A surviving tile at row `i` lands `d` rows lower, where `d` is the number
   * of holes below it, and its `drop` becomes `d * TILE_SIZE`; nothing else
   * about it changes.
   */
  lemma ShiftedMovesDown(col: seq<Option<Tile>>, i: int)
    requires 0 <= i < |col| && col[i].Some?
    ensures i + Holes(col[i + 1..]) < |col|
    ensures Shifted(col)[i + Holes(col[i + 1..])] == Some(col[i].value.(drop := Holes(col[i + 1..]) * TILE_SIZE))
  {
    FallenAt(col, i);
    HolesSplit(col, i);
    assert col[i..] == [col[i]] + col[i + 1..];
    HolesAppend([col[i]], col[i + 1..]);
    assert [col[i]][1..] == [];
    var k := i - Holes(col[..i]);
    assert Holes(col) + k == i + Holes(col[i + 1..]);
  }

  /** Two survivors keep their order: the shift never swaps or merges tiles. */
  lemma ShiftKeepsOrder(col: seq<Option<Tile>>, i: int, j: int)
    requires 0 <= i < j < |col| && col[i].Some? && col[j].Some?
    ensures i + Holes(col[i + 1..]) < j + Holes(col[j + 1..])
  {
    var below := col[i + 1..];
    HolesSplit(below, j - i - 1);
    assert below[..j - i - 1] == col[i + 1..j];
    assert below[j - i - 1..] == [col[j]] + col[j + 1..];
    HolesAppend([col[j]], col[j + 1..]);
    assert [col[j]][1..] == [];
  }

  /** Every tile of the column sits at the centre of its row; the top row's centre is `top`. */
  predicate Placed(col: seq<Option<Tile>>, top: int)
  {
    forall i :: 0 <= i < |col| && col[i].Some? ==> col[i].value.cy == top + i * TILE_SIZE
  }

  lemma {:induction false} FallenLands(col: seq<Option<Tile>>, top: int)
    requires Placed(col, top)
    ensures forall k :: 0 <= k < |Fallen(col)| ==>
      Fallen(col)[k].cy + Fallen(col)[k].drop == top + (Holes(col) + k) * TILE_SIZE
    decreases |col|
  {
    if col != [] {
      var rest := col[1..];
      assert Placed(rest, top + TILE_SIZE) by {
        forall i | 0 <= i < |rest| && rest[i].Some?
          ensures rest[i].value.cy == top + TILE_SIZE + i * TILE_SIZE
        {
          assert rest[i] == col[i + 1];
        }
      }
      FallenLands(rest, top + TILE_SIZE);
    }
  }

  /**
   * Once every tile has fallen its `drop`, each survivor sits at the centre
   * of the row it was moved to: `cy + drop` is that centre.
   */
  lemma ShiftedLands(col: seq<Option<Tile>>, top: int)
    requires Placed(col, top)
    ensures forall r :: Holes(col) <= r < |col| ==>
      Shifted(col)[r].value.cy + Shifted(col)[r].value.drop == top + r * TILE_SIZE
  {
    FallenLands(col, top);
    var h, f, s := Holes(col), Fallen(col), Shifted(col);
    forall r | h <= r < |col|
      ensures s[r].value.cy + s[r].value.drop == top + r * TILE_SIZE
    {
      var k := r - h;
      assert s[r] == Some(f[k]);
      assert f[k].cy + f[k].drop == top + (h + k) * TILE_SIZE;
    }
  }

  /** Every tile of the column stands at abscissa `x`, at full size, with nothing to fall. */
  predicate Upright(col: seq<Option<Tile>>, x: int)
  {
    forall i :: 0 <= i < |col| && col[i].Some? ==>
      col[i].value.cx == x && col[i].value.drop == 0 && col[i].value.tileSize == TILE_SIZE
  }

  /** A column of tiles at rest, `x` the centre of its column and `top` the centre of its top row. */
  predicate AtRest(col: seq<Option<Tile>>, x: int, top: int)
  {
    Upright(col, x) && Placed(col, top)
  }

  lemma {:induction false} FallenUpright(col: seq<Option<Tile>>, x: int)
    requires Upright(col, x)
    ensures forall k :: 0 <= k < |Fallen(col)| ==>
      Fallen(col)[k].cx == x && Fallen(col)[k].tileSize == TILE_SIZE &&
      0 <= Fallen(col)[k].drop && Fallen(col)[k].drop % STEP == 0
    decreases |col|
  {
    if col != [] {
      var rest := col[1..];
      assert Upright(rest, x) by {
        forall i | 0 <= i < |rest| && rest[i].Some?
          ensures rest[i].value.cx == x && rest[i].value.drop == 0 && rest[i].value.tileSize == TILE_SIZE
        {
          assert rest[i] == col[i + 1];
        }
      }
      FallenUpright(rest, x);
      WholeSteps(Holes(rest));
      var head := match col[0]
        case None => []
        case Some(t) => [t.(drop := Holes(rest) * TILE_SIZE)];
      assert Fallen(col) == head + Fallen(rest);
      forall k | 0 <= k < |Fallen(col)|
        ensures Fallen(col)[k].cx == x && Fallen(col)[k].tileSize == TILE_SIZE
        ensures 0 <= Fallen(col)[k].drop && Fallen(col)[k].drop % STEP == 0
      {
        if k >= |head| {
          assert Fallen(col)[k] == Fallen(rest)[k - |head|];
        }
      }
    }
  }

  /** A fall over whole rows is a whole number of STEPs. */
  lemma WholeSteps(n: nat)
    ensures 0 <= n * TILE_SIZE && (n * TILE_SIZE) % STEP == 0
  {
    assert n * TILE_SIZE == STEP * (10 * n);
  }

  /**
   * After the shift of a column at rest, every survivor stands in its
   * column, at full size, with a whole number of STEPs to fall, and falling
   * them brings it to the centre of the row it now occupies.
   */
  lemma ShiftedLanding(col: seq<Option<Tile>>, x: int, top: int)
    requires AtRest(col, x, top)
    ensures forall r :: Holes(col) <= r < |col| ==>
      Shifted(col)[r].Some? && Shifted(col)[r].value.cx == x && Shifted(col)[r].value.tileSize == TILE_SIZE &&
      Shifted(col)[r].value.cy + Shifted(col)[r].value.drop == top + r * TILE_SIZE &&
      0 <= Shifted(col)[r].value.drop && Shifted(col)[r].value.drop % STEP == 0
  {
    ShiftedLands(col, top);
    FallenUpright(col, x);
    forall r | Holes(col) <= r < |col|
      ensures Shifted(col)[r] == Some(Fallen(col)[r - Holes(col)])
    {
    }
  }

  function Sum(ns: seq<int>): int
    decreases |ns|
  {
    if ns == [] then 0 else Sum(ns[..|ns| - 1]) + ns[|ns| - 1]
  }

  lemma SumPrefix(ns: seq<int>, i: int)
    requires 0 <= i < |ns|
    ensures Sum(ns[..i + 1]) == Sum(ns[..i]) + ns[i]
  {
    assert ns[..i + 1][..i] == ns[..i];
  }

  /** The number of empty cells of each column. */
  function HoleCounts(cols: seq<seq<Option<Tile>>>): (counts: seq<int>)
    ensures |counts| == |cols| && forall c :: 0 <= c < |cols| ==> counts[c] == Holes(cols[c])
  {
    seq(|cols|, c requires 0 <= c < |cols| => Holes(cols[c]))
  }

  /** The empty cells of the whole grid: the number of tiles the refill generates. */
  function GridHoles(cols: seq<seq<Option<Tile>>>): int
  {
    Sum(HoleCounts(cols))
  }

  /** Replacing one cell changes the count of empty cells by that cell alone. */
  lemma HolesUpdate(col: seq<Option<Tile>>, i: int, x: Option<Tile>)
    requires 0 <= i < |col|
    ensures Holes(col[i := x]) == Holes(col) - (if col[i].None? then 1 else 0) + (if x.None? then 1 else 0)
  {
    var col' := col[i := x];
    HolesSplit(col, i);
    HolesSplit(col', i);
    SuffixStep(col, i);
    SuffixStep(col', i);
    assert col'[..i] == col[..i];
    assert col'[i + 1..] == col[i + 1..];
  }

  lemma {:induction false} HolesNone(col: seq<Option<Tile>>)
    requires forall i :: 0 <= i < |col| ==> col[i].Some?
    ensures Holes(col) == 0
    decreases |col|
  {
    if col != [] {
      assert forall i :: 0 <= i < |col[1..]| ==> col[1..][i] == col[i + 1];
      HolesNone(col[1..]);
    }
  }

  /** How many members of the path `p` lie in column `c`. */
  function InColumn(p: seq<Coord>, c: int): (n: nat)
    ensures n <= |p|
    decreases |p|
  {
    if p == [] then 0 else InColumn(p[..|p| - 1], c) + (if p[|p| - 1].col == c then 1 else 0)
  }

  /** Column `c` once the tiles of the path `p` have left it: a cell is empty exactly where `p` passed. */
  predicate Carved(col: seq<Option<Tile>>, p: seq<Coord>, c: int)
  {
    forall r :: 0 <= r < |col| ==> (col[r].None? <==> Coord(c, r) in p)
  }

  /** A column carved by a duplicate-free path has one empty cell per member of the path in that column. */
  lemma {:induction false} CarvedHoles(col: seq<Option<Tile>>, p: seq<Coord>, c: int)
    requires |col| == GRID_SIZE && Carved(col, p, c) && Distinct(p)
    requires forall i :: 0 <= i < |p| ==> InGrid(p[i])
    ensures Holes(col) == InColumn(p, c)
    decreases |p|
  {
    if p == [] {
      HolesNone(col);
    } else {
      var q := p[..|p| - 1];
      var last := p[|p| - 1];
      assert p == q + [last];
      assert last !in q by {
        forall i | 0 <= i < |q|
          ensures q[i] != last
        {
          assert q[i] == p[i];
        }
      }
      if last.col != c {
        CarvedHoles(col, q, c);
      } else {
        var col' := col[last.row := Some(NewTile(Square, 0, 0))];
        assert Carved(col', q, c);
        CarvedHoles(col', q, c);
        HolesUpdate(col, last.row, Some(NewTile(Square, 0, 0)));
      }
    }
  }

  /** Every member of an in-grid path lies in exactly one of the GRID_SIZE columns. */
  lemma {:induction false} ColumnsPartition(p: seq<Coord>)
    requires forall i :: 0 <= i < |p| ==> InGrid(p[i])
    ensures InColumn(p, 0) + InColumn(p, 1) + InColumn(p, 2) + InColumn(p, 3) + InColumn(p, 4) == |p|
    decreases |p|
  {
    if p != [] {
      ColumnsPartition(p[..|p| - 1]);
    }
  }

  /**
   * A grid carved by a duplicate-free path has exactly as many empty cells
   * as the path has members: the refill generates one new tile for each
   * tile that left.
   */
  lemma CarvedGridHoles(cols: seq<seq<Option<Tile>>>, p: seq<Coord>)
    requires |cols| == GRID_SIZE && forall c :: 0 <= c < GRID_SIZE ==> |cols[c]| == GRID_SIZE && Carved(cols[c], p, c)
    requires Distinct(p) && forall i :: 0 <= i < |p| ==> InGrid(p[i])
    ensures forall c :: 0 <= c < GRID_SIZE ==> Holes(cols[c]) == InColumn(p, c)
    ensures GridHoles(cols) == |p|
  {
    forall c | 0 <= c < GRID_SIZE
      ensures Holes(cols[c]) == InColumn(p, c)
    {
      CarvedHoles(cols[c], p, c);
    }
    ColumnsPartition(p);
    SumOfFive(HoleCounts(cols));
  }

  lemma SumOfFive(ns: seq<int>)
    requires |ns| == GRID_SIZE
    ensures Sum(ns) == ns[0] + ns[1] + ns[2] + ns[3] + ns[4]
  {
    assert ns[..5] == ns;
    assert Sum(ns[..1]) == ns[0] by {
      assert ns[..1][..0] == [];
    }
    assert Sum(ns[..2]) == Sum(ns[..1]) + ns[1] by {
      assert ns[..2][..1] == ns[..1];
    }
    assert Sum(ns[..3]) == Sum(ns[..2]) + ns[2] by {
      assert ns[..3][..2] == ns[..2];
    }
    assert Sum(ns[..4]) == Sum(ns[..3]) + ns[3] by {
      assert ns[..4][..3] == ns[..3];
    }
    assert Sum(ns) == Sum(ns[..4]) + ns[4];
  }
}
