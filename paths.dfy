/**
 * The path a gesture builds: grid coordinates, the rule that decides whether
 * a coordinate may join it, and the running sum of its tiles' operators.
 */
module Paths {
  import opened Tiles

  /** A cell of the grid, as `getTileForPoint` reports it. */
  datatype Coord = Coord(col: int, row: int)

  predicate InGrid(c: Coord)
  {
    0 <= c.col < GRID_SIZE && 0 <= c.row < GRID_SIZE
  }

  /** `t` shares an edge with `c`: one of the four tests of `maybeAddToPath`. */
  predicate Touches(t: Coord, c: Coord)
  {
    (t.row == c.row && t.col == c.col + 1) ||
    (t.row == c.row && t.col == c.col - 1) ||
    (t.row - 1 == c.row && t.col == c.col) ||
    (t.row + 1 == c.row && t.col == c.col)
  }

  /** The four tests are exactly "Manhattan distance one": no diagonals, no cell touches itself. */
  lemma TouchesIsUnitDistance(t: Coord, c: Coord)
    ensures Touches(t, c) <==> Abs(t.col - c.col) + Abs(t.row - c.row) == 1
  {
  }

  predicate Distinct(p: seq<Coord>)
  {
    forall i, j :: 0 <= i < j < |p| ==> p[i] != p[j]
  }

  /** The member at `j` touches some member before it, not necessarily the one just before it. */
  predicate TouchesEarlier(p: seq<Coord>, j: int)
    requires 0 <= j < |p|
  {
    exists i :: 0 <= i < j && Touches(p[i], p[j])
  }

  /** Every member after the first touches some earlier member. */
  predicate Connected(p: seq<Coord>)
  {
    forall j :: 0 < j < |p| ==> TouchesEarlier(p, j)
  }

  /** What `currentPath` always is: in-grid, duplicate-free and connected. */
  predicate WellFormed(p: seq<Coord>)
  {
    (forall i :: 0 <= i < |p| ==> InGrid(p[i])) && Distinct(p) && Connected(p)
  }

  /** The acceptance rule of `maybeAddToPath` for a resolved coordinate. */
  predicate Accepts(p: seq<Coord>, c: Coord)
  {
    c !in p && (p == [] || exists i :: 0 <= i < |p| && Touches(p[i], c))
  }

  /** A coordinate that the rule accepts keeps the path well formed. */
  lemma ExtendKeepsWellFormed(p: seq<Coord>, c: Coord)
    requires WellFormed(p) && InGrid(c) && Accepts(p, c)
    ensures WellFormed(p + [c])
  {
    var q := p + [c];
    forall j | 0 < j < |q|
      ensures TouchesEarlier(q, j)
    {
      if j < |p| {
        assert TouchesEarlier(p, j);
        var i :| 0 <= i < j && Touches(p[i], p[j]);
        assert q[i] == p[i];
      } else {
        var i :| 0 <= i < |p| && Touches(p[i], c);
        assert q[i] == p[i];
      }
    }
  }

  /** Left fold of the operators over `ops`, starting from the accumulator `acc`. */
  function SumFrom(acc: int, ops: seq<Op>): int
    decreases |ops|
  {
    if ops == [] then acc else SumFrom(ApplyOp(ops[0], acc), ops[1..])
  }

  /** The sum of a path whose tiles carry `ops`, in acceptance order: the fold from 0. */
  function PathSum(ops: seq<Op>): int
  {
    SumFrom(0, ops)
  }

  /** Appending one tile to a path applies its operator to the sum so far. */
  lemma {:induction false} SumFromSnoc(acc: int, ops: seq<Op>, op: Op)
    ensures SumFrom(acc, ops + [op]) == ApplyOp(op, SumFrom(acc, ops))
    decreases |ops|
  {
    if ops == [] {
      assert [] + [op] == [op];
    } else {
      assert (ops + [op])[1..] == ops[1..] + [op];
      SumFromSnoc(ApplyOp(ops[0], acc), ops[1..], op);
    }
  }

  /** The sum of a path is the sum of its prefix with the last operator applied. */
  lemma PathSumSnoc(ops: seq<Op>, op: Op)
    ensures PathSum(ops + [op]) == ApplyOp(op, PathSum(ops))
  {
    SumFromSnoc(0, ops, op);
  }
}
