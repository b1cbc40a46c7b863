/**
 * `gameOver` (game.js:492-498) as written, on the part of the state it
 * touches, with the two inputs that show where it falls short. The game
 * itself (`Engine.Game.GameOver`) uses the corrected behaviour.
 */
module Findings {
  import opened Options
  import opened Tiles
  import opened Paths
  import opened Generation
  import opened Animation
  import opened Refill

  /** The gesture state: `currentPath`, `currentSum`, `inPath` and `enabled`. */
  datatype Session = Session(path: seq<Coord>, sum: int, inPath: bool, enabled: bool)

  /** `gameOver` as written: the path is emptied and input disabled; the sum and `inPath` are left as they were. */
  function GameOverAsWritten(s: Session): (s': Session)
    ensures s'.path == [] && !s'.enabled
    ensures s'.sum == s.sum && s'.inPath == s.inPath
  {
    s.(path := [], enabled := false)
  }

  /** The play-again button as far as the gesture state goes: input is enabled again. */
  function PlayAgainAsWritten(s: Session): (s': Session)
    ensures s' == s.(enabled := true)
  {
    s.(enabled := true)
  }

  /**
   * The mousemove listener over a tile at `c` carrying `op`, during a
   * gesture with input enabled, an empty path and no animation running
   * (game.js:558-564): an Adder starts the path and its operator is applied
   * to the sum as it stands.
   */
  function MoveOntoAdder(s: Session, c: Coord, op: Op): (s': Session)
    requires s.path == [] && s.enabled && s.inPath && op.Add?
    ensures s'.path == [c] && s'.sum == ApplyOp(op, s.sum)
    ensures s'.inPath && s'.enabled
  {
    s.(path := [c], sum := ApplyOp(op, s.sum))
  }

  /**
   * The timer expires while the player is dragging over a single +3 tile.
   * After play-again, merely moving the mouse over a -3 tile, with no button
   * pressed, starts a path whose running sum is 0 although its operators
   * fold to -3: the next release scores it as a zero-sum path.
   */
  lemma StaleSumAfterGameOver()
    ensures var dragging := Session([Coord(0, 0)], 3, true, true);
      var after := MoveOntoAdder(PlayAgainAsWritten(GameOverAsWritten(dragging)), Coord(2, 2), Add(-3));
      after.path == [Coord(2, 2)] && after.inPath && after.sum == 0 && PathSum([Add(-3)]) == -3
  {
    assert PathSum([Add(-3)]) == SumFrom(ApplyOp(Add(-3), 0), []);
  }

  /**
   * The timer expires five frames into the vanishing of a one-tile path at
   * `(c, r)` of the board `b`, every other tile at rest. `gameOver` as
   * written empties the path, so the next frame of `vanishFrame` finds no
   * tile of the path with any size left and takes the path as gone: it
   * carves nothing, shifts nothing, generates no tile and the drop that
   * follows ends at once. The tile stays in its cell at half its size with
   * its number hidden.
   */
  lemma HalfVanishedTileStays(b: Board, c: int, r: int, cx: int, cy: int, x0: int, y0: int, draws: seq<Draw>)
    requires Sized(b.cells) && Still(b.cells) && 0 <= c < GRID_SIZE && 0 <= r < GRID_SIZE
    requires b.cells[c][r] == Some(CollapseFrames(NewTile(Add(3), cx, cy), 5))
    requires |draws| >= GRID_SIZE * GRID_SIZE && ValidDraws(draws)
    ensures var pathAfter := GameOverAsWritten(Session([Coord(c, r)], 0, false, true)).path;
      var next := FinalFrame(b, pathAfter, x0, y0, draws);
      pathAfter == [] &&
      next == b && next.tick == b.tick && GridMaxDrop(Refilled(b, pathAfter, x0, y0, draws).cells) == 0 &&
      next.cells[c][r].Some? && next.cells[c][r].value.tileSize == TILE_SIZE / 2 && !next.cells[c][r].value.showText
  {
    QuietVanish(b, x0, y0, draws);
    CollapseLands(NewTile(Add(3), cx, cy), 5);
    assert CollapseFrames(NewTile(Add(3), cx, cy), 5) == CollapseFrames(Collapse(NewTile(Add(3), cx, cy)), 4);
  }
}
