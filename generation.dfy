/**
 * The decision procedure of `generateTile`: a census of the grid, the
 * throttle on arithmetic tiles and the skew correction of Adder values.
 * `Math.random()` is replaced by a `Draw`, the two values it would return.
 */
module Generation {
  import opened Options
  import opened Tiles

  /** Ticks that must pass before another tile of the same arithmetic kind. */
  const THROTTLE: int := 10

  /** Largest imbalance between positive and non-positive Adders left uncorrected. */
  const SKEW: int := 5

  /** Largest absolute value of a new Adder. */
  const LIMIT: int := 9

  /** The counts `generateTile` takes of the grid; a value of 0 counts as negative. */
  datatype Census = Census(positive: nat, negative: nat, multipliers: nat, squares: nat)

  function Plus(a: Census, b: Census): Census
  {
    Census(a.positive + b.positive, a.negative + b.negative, a.multipliers + b.multipliers, a.squares + b.squares)
  }

  /** One step of the counting loop: empty cells are skipped. */
  function Tally(c: Census, cell: Option<Tile>): Census
  {
    match cell
    case None => c
    case Some(t) =>
      match t.op
      case Add(v) => if v > 0 then c.(positive := c.positive + 1) else c.(negative := c.negative + 1)
      case Mult(_) => c.(multipliers := c.multipliers + 1)
      case Square => c.(squares := c.squares + 1)
  }

  /** The census of one column, rows counted top to bottom. */
  function ColumnCensus(col: seq<Option<Tile>>): Census
    decreases |col|
  {
    if col == [] then Census(0, 0, 0, 0)
    else Tally(ColumnCensus(col[..|col| - 1]), col[|col| - 1])
  }

  /** The census of a grid given as its columns, counted left to right. */
  function GridCensus(cols: seq<seq<Option<Tile>>>): Census
    decreases |cols|
  {
    if cols == [] then Census(0, 0, 0, 0)
    else Plus(GridCensus(cols[..|cols| - 1]), ColumnCensus(cols[|cols| - 1]))
  }

  /** `a` counts at least as many tiles of every class as `b`. */
  predicate Covers(a: Census, b: Census)
  {
    a.positive >= b.positive && a.negative >= b.negative &&
    a.multipliers >= b.multipliers && a.squares >= b.squares
  }

  /** The class a tile is counted in has a count of at least one. */
  predicate Counted(c: Census, t: Tile)
  {
    match t.op
    case Add(v) => if v > 0 then c.positive >= 1 else c.negative >= 1
    case Mult(_) => c.multipliers >= 1
    case Square => c.squares >= 1
  }

  lemma {:induction false} ColumnCensusSees(col: seq<Option<Tile>>, r: int)
    requires 0 <= r < |col| && col[r].Some?
    ensures Counted(ColumnCensus(col), col[r].value)
    decreases |col|
  {
    var init := col[..|col| - 1];
    if r < |col| - 1 {
      assert init[r] == col[r];
      ColumnCensusSees(init, r);
    }
  }

  lemma {:induction false} GridCensusCovers(cols: seq<seq<Option<Tile>>>, c: int)
    requires 0 <= c < |cols|
    ensures Covers(GridCensus(cols), ColumnCensus(cols[c]))
    decreases |cols|
  {
    var init := cols[..|cols| - 1];
    if c < |cols| - 1 {
      assert init[c] == cols[c];
      GridCensusCovers(init, c);
    }
  }

  /**
   * Every tile on the grid is counted: in particular a Multiplier or a Square
   * anywhere on the grid makes its count non-zero.
   */
  lemma CensusSeesTile(cols: seq<seq<Option<Tile>>>, c: int, r: int)
    requires 0 <= c < |cols| && 0 <= r < |cols[c]| && cols[c][r].Some?
    ensures Counted(GridCensus(cols), cols[c][r].value)
  {
    ColumnCensusSees(cols[c], r);
    GridCensusCovers(cols, c);
  }

  /** At most one Multiplier and at most one Square are counted. */
  predicate Scarce(c: Census)
  {
    c.multipliers <= 1 && c.squares <= 1
  }

  /** Two cells hold tiles with the same operator, or are both empty: the census cannot tell them apart. */
  predicate SameOp(a: Option<Tile>, b: Option<Tile>)
  {
    a.Some? == b.Some? && (a.Some? ==> a.value.op == b.value.op)
  }

  lemma TallyPlus(a: Census, b: Census, cell: Option<Tile>)
    ensures Tally(Plus(a, b), cell) == Plus(a, Tally(b, cell))
  {
  }

  /** The census of a column laid on top of another is the sum of theirs. */
  lemma {:induction false} ColumnCensusAppend(a: seq<Option<Tile>>, b: seq<Option<Tile>>)
    ensures ColumnCensus(a + b) == Plus(ColumnCensus(a), ColumnCensus(b))
    decreases |b|
  {
    if b == [] {
      assert a + b == a;
    } else {
      var init, last := b[..|b| - 1], b[|b| - 1];
      ColumnCensusAppend(a, init);
      var ab := a + b;
      assert ab[..|ab| - 1] == a + init && ab[|ab| - 1] == last;
      assert ColumnCensus(ab) == Tally(ColumnCensus(a + init), last);
      assert ColumnCensus(b) == Tally(ColumnCensus(init), last);
      TallyPlus(ColumnCensus(a), ColumnCensus(init), last);
    }
  }

  lemma {:induction false} ColumnCensusSameOps(a: seq<Option<Tile>>, b: seq<Option<Tile>>)
    requires |a| == |b| && forall i :: 0 <= i < |a| ==> SameOp(a[i], b[i])
    ensures ColumnCensus(a) == ColumnCensus(b)
    decreases |a|
  {
    if a != [] {
      ColumnCensusSameOps(a[..|a| - 1], b[..|b| - 1]);
    }
  }

  /** Emptying cells of a column never raises a count. */
  lemma {:induction false} ColumnCensusEmptied(a: seq<Option<Tile>>, b: seq<Option<Tile>>)
    requires |a| == |b| && forall i :: 0 <= i < |a| ==> b[i] == a[i] || b[i].None?
    ensures Covers(ColumnCensus(a), ColumnCensus(b))
    decreases |a|
  {
    if a != [] {
      ColumnCensusEmptied(a[..|a| - 1], b[..|b| - 1]);
    }
  }

  /** A part of a column counts no more than the column. */
  lemma ColumnCensusPart(col: seq<Option<Tile>>, lo: int, hi: int)
    requires 0 <= lo <= hi <= |col|
    ensures Covers(ColumnCensus(col), ColumnCensus(col[lo..hi]))
  {
    assert col == col[..lo] + col[lo..hi] + col[hi..];
    ColumnCensusAppend(col[..lo] + col[lo..hi], col[hi..]);
    ColumnCensusAppend(col[..lo], col[lo..hi]);
  }

  /** A grid whose every column counts at least as much as the other's counts at least as much. */
  lemma {:induction false} GridCensusCoversAll(a: seq<seq<Option<Tile>>>, b: seq<seq<Option<Tile>>>)
    requires |a| == |b| && forall c :: 0 <= c < |a| ==> Covers(ColumnCensus(a[c]), ColumnCensus(b[c]))
    ensures Covers(GridCensus(a), GridCensus(b))
    decreases |a|
  {
    if a != [] {
      GridCensusCoversAll(a[..|a| - 1], b[..|b| - 1]);
    }
  }

  lemma {:induction false} GridCensusSame(a: seq<seq<Option<Tile>>>, b: seq<seq<Option<Tile>>>)
    requires |a| == |b| && forall c :: 0 <= c < |a| ==> ColumnCensus(a[c]) == ColumnCensus(b[c])
    ensures GridCensus(a) == GridCensus(b)
    decreases |a|
  {
    if a != [] {
      GridCensusSame(a[..|a| - 1], b[..|b| - 1]);
    }
  }

  /** Two grids that hold the same operators in the same cells have the same census. */
  lemma GridCensusSameOps(a: seq<seq<Option<Tile>>>, b: seq<seq<Option<Tile>>>)
    requires |a| == |b|
    requires forall c :: 0 <= c < |a| ==> |a[c]| == |b[c]| && forall r :: 0 <= r < |a[c]| ==> SameOp(a[c][r], b[c][r])
    ensures GridCensus(a) == GridCensus(b)
  {
    forall c | 0 <= c < |a|
      ensures ColumnCensus(a[c]) == ColumnCensus(b[c])
    {
      ColumnCensusSameOps(a[c], b[c]);
    }
    GridCensusSame(a, b);
  }

  /** Emptying cells of a grid never raises a count. */
  lemma GridCensusEmptied(a: seq<seq<Option<Tile>>>, b: seq<seq<Option<Tile>>>)
    requires |a| == |b|
    requires forall c :: 0 <= c < |a| ==> |a[c]| == |b[c]| && forall r :: 0 <= r < |a[c]| ==> b[c][r] == a[c][r] || b[c][r].None?
    ensures Covers(GridCensus(a), GridCensus(b))
  {
    forall c | 0 <= c < |a|
      ensures Covers(ColumnCensus(a[c]), ColumnCensus(b[c]))
    {
      ColumnCensusEmptied(a[c], b[c]);
    }
    GridCensusCoversAll(a, b);
  }

  /** The grid's census is that of all columns but the last plus the last one's. */
  lemma GridCensusLast(cols: seq<seq<Option<Tile>>>)
    requires |cols| > 0
    ensures GridCensus(cols) == Plus(GridCensus(cols[..|cols| - 1]), ColumnCensus(cols[|cols| - 1]))
  {
  }

  /** Replacing one column adds the difference of the two columns' censuses to the grid's. */
  lemma {:induction false} GridCensusUpdate(cols: seq<seq<Option<Tile>>>, c: int, col: seq<Option<Tile>>, d: Census)
    requires 0 <= c < |cols| && ColumnCensus(col) == Plus(ColumnCensus(cols[c]), d)
    ensures GridCensus(cols[c := col]) == Plus(GridCensus(cols), d)
    decreases |cols|
  {
    var cols' := cols[c := col];
    var n := |cols| - 1;
    GridCensusLast(cols);
    GridCensusLast(cols');
    var rest, last := GridCensus(cols[..n]), ColumnCensus(cols[n]);
    if c < n {
      assert cols'[..n] == cols[..n][c := col];
      GridCensusUpdate(cols[..n], c, col, d);
      assert cols'[n] == cols[n];
      PlusSwap(rest, d, last);
    } else {
      assert cols'[..n] == cols[..n];
      assert cols'[n] == col;
      PlusAssoc(rest, last, d);
    }
  }

  lemma PlusSwap(a: Census, b: Census, c: Census)
    ensures Plus(Plus(a, b), c) == Plus(Plus(a, c), b)
  {
  }

  lemma PlusAssoc(a: Census, b: Census, c: Census)
    ensures Plus(a, Plus(b, c)) == Plus(Plus(a, b), c)
  {
  }

  /**
   * Adding to a grid one tile that the census of a larger grid allowed keeps
   * at most one Multiplier and one Square: `w'` is `w` with `t` added at the
   * top or the bottom of column `c`, and a Multiplier (Square) is only added
   * while `whole`, which counts all of `w`, counts none.
   */
  lemma GrowScarce(w: seq<seq<Option<Tile>>>, w': seq<seq<Option<Tile>>>, c: int, t: Tile, whole: Census)
    requires 0 <= c < |w| == |w'| && forall c' :: 0 <= c' < |w| && c' != c ==> w'[c'] == w[c']
    requires w'[c] == [Some(t)] + w[c] || w'[c] == w[c] + [Some(t)]
    requires Scarce(GridCensus(w)) && Covers(whole, GridCensus(w))
    requires t.op.Mult? ==> whole.multipliers == 0
    requires t.op.Square? ==> whole.squares == 0
    ensures Scarce(GridCensus(w'))
  {
    var one := ColumnCensus([Some(t)]);
    assert one == Tally(Census(0, 0, 0, 0), Some(t)) by {
      var none: seq<Option<Tile>> := [];
      assert [Some(t)][..0] == none && ColumnCensus(none) == Census(0, 0, 0, 0);
    }
    assert ColumnCensus(w'[c]) == Plus(ColumnCensus(w[c]), one) by {
      if w'[c] == [Some(t)] + w[c] {
        ColumnCensusAppend([Some(t)], w[c]);
      } else {
        ColumnCensusAppend(w[c], [Some(t)]);
      }
    }
    GridCensusUpdate(w, c, w'[c], one);
    assert w' == w[c := w'[c]];
    var before, after := GridCensus(w), GridCensus(w');
    assert after == Plus(before, one);
    assert after.multipliers == before.multipliers + (if t.op.Mult? then 1 else 0);
    assert after.squares == before.squares + (if t.op.Square? then 1 else 0);
  }

  /** The two values `Math.random()` returns during one call of `generateTile`. */
  datatype Draw = Draw(r: real, pick: real)

  predicate ValidDraw(d: Draw)
  {
    0.0 <= d.r < 1.0 && 0.0 <= d.pick < 1.0
  }

  predicate ValidDraws(ds: seq<Draw>)
  {
    forall i :: 0 <= i < |ds| ==> ValidDraw(ds[i])
  }

  /** `getRandomIntInclusive(min, max)` for the value `u` of `Math.random()`. */
  function RandomIntInclusive(min: int, max: int, u: real): (v: int)
    requires min <= max && 0.0 <= u < 1.0
    ensures min <= v <= max
  {
    var n := (max - min + 1) as real;
    assert 0.0 <= u * n < n by {
      assert u * n < 1.0 * n;
    }
    (u * n).Floor + min
  }

  /** The range a new Adder's value is drawn from (game.js:424-430). */
  function AdderRange(c: Census): (range: (int, int))
    ensures range.0 <= range.1
    ensures c.positive - c.negative > SKEW ==> range == (-LIMIT, 0)
    ensures c.negative - c.positive > SKEW ==> range == (0, LIMIT)
    ensures -SKEW <= c.positive - c.negative <= SKEW ==> range == (-LIMIT, LIMIT)
  {
    if c.positive - c.negative > SKEW then (-LIMIT, 0)
    else if c.negative - c.positive > SKEW then (0, LIMIT)
    else (-LIMIT, LIMIT)
  }

  /** What one call of `generateTile` produces and the `lastGen` entries it leaves. */
  datatype Generated = Generated(op: Op, lastMult: int, lastSquare: int)

  predicate MultAllowed(c: Census, tick: int, lastMult: int)
  {
    tick - lastMult > THROTTLE && c.multipliers < 1
  }

  predicate SquareAllowed(c: Census, tick: int, lastSquare: int)
  {
    tick - lastSquare > THROTTLE && c.squares < 1
  }

  /**
   * The else-if chain of `generateTile`, once `tick` has been incremented and
   * the grid counted. A Multiplier or a Square comes only when none is
   * counted and its kind was last generated more than THROTTLE ticks ago, and
   * then its `lastGen` entry becomes `tick`. A draw in a higher bucket whose
   * kind is throttled yields an Adder, never a tile of a lower bucket. An
   * Adder's value lies in the skew-corrected range.
   */
  function Decide(c: Census, tick: int, lastMult: int, lastSquare: int, d: Draw): (g: Generated)
    requires ValidDraw(d)
    ensures g.op.Mult? <==> d.r > 0.8 && MultAllowed(c, tick, lastMult)
    ensures g.op.Square? <==> 0.7 < d.r <= 0.8 && SquareAllowed(c, tick, lastSquare)
    ensures g.op.Mult? ==> c.multipliers == 0 && tick - lastMult > THROTTLE
    ensures g.op.Mult? ==> (g.op.multiplier == 2 <==> d.r > 0.9) && (g.op.multiplier == 2 || g.op.multiplier == -1)
    ensures g.op.Square? ==> c.squares == 0 && tick - lastSquare > THROTTLE
    ensures g.lastMult == (if g.op.Mult? then tick else lastMult)
    ensures g.lastSquare == (if g.op.Square? then tick else lastSquare)
    ensures g.op.Add? ==> -LIMIT <= g.op.val <= LIMIT
    ensures g.op.Add? && c.positive - c.negative > SKEW ==> -LIMIT <= g.op.val <= 0
    ensures g.op.Add? && c.negative - c.positive > SKEW ==> 0 <= g.op.val <= LIMIT
    ensures g.op.Add? ==> g.op.val == RandomIntInclusive(AdderRange(c).0, AdderRange(c).1, d.pick)
  {
    var special :=
      if d.r > 0.9 then (if MultAllowed(c, tick, lastMult) then Some(Mult(2)) else None)
      else if d.r > 0.8 then (if MultAllowed(c, tick, lastMult) then Some(Mult(-1)) else None)
      else if d.r > 0.7 then (if SquareAllowed(c, tick, lastSquare) then Some(Square) else None)
      else None;
    match special
    case Some(op) =>
      if op.Square? then Generated(op, lastMult, tick) else Generated(op, tick, lastSquare)
    case None =>
      var (lo, hi) := AdderRange(c);
      Generated(Add(RandomIntInclusive(lo, hi, d.pick)), lastMult, lastSquare)
  }
}
