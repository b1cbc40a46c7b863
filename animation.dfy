/**
 * The translation animation on the whole grid: one frame moves every tile
 * that still has some way to fall by STEP, and the animation is over once
 * no tile has any way left. Columns are sequences of cells, top row first.
 */
module Animation {
  import opened Options
  import opened Tiles

  /** Every tile of the column still has a whole number of STEPs to fall. */
  predicate Grounded(col: seq<Option<Tile>>)
  {
    forall i :: 0 <= i < |col| && col[i].Some? ==> 0 <= col[i].value.drop && col[i].value.drop % STEP == 0
  }

  predicate AllGrounded(cols: seq<seq<Option<Tile>>>)
  {
    forall c :: 0 <= c < |cols| ==> Grounded(cols[c])
  }

  /** One frame of `translateFrame` on a column: every tile falls once. */
  function ColumnFall(col: seq<Option<Tile>>): (fallen: seq<Option<Tile>>)
    ensures |fallen| == |col|
    ensures forall i :: 0 <= i < |col| ==> fallen[i] == if col[i].Some? then Some(Fall(col[i].value)) else None
  {
    seq(|col|, i requires 0 <= i < |col| => if col[i].Some? then Some(Fall(col[i].value)) else None)
  }

  /** One frame of `translateFrame` on the grid. */
  function GridFall(cols: seq<seq<Option<Tile>>>): (fallen: seq<seq<Option<Tile>>>)
    ensures |fallen| == |cols|
    ensures forall c :: 0 <= c < |cols| ==> fallen[c] == ColumnFall(cols[c])
  {
    seq(|cols|, c requires 0 <= c < |cols| => ColumnFall(cols[c]))
  }

  function DropOf(cell: Option<Tile>): int
  {
    if cell.Some? then cell.value.drop else 0
  }

  /** The longest way any tile of the column still has to fall. */
  function MaxDrop(col: seq<Option<Tile>>): (m: int)
    ensures m >= 0
    decreases |col|
  {
    if col == [] then 0
    else
      var rest := MaxDrop(col[..|col| - 1]);
      var last := DropOf(col[|col| - 1]);
      if last > rest then last else rest
  }

  /** The longest way any tile of the grid still has to fall. */
  function GridMaxDrop(cols: seq<seq<Option<Tile>>>): (m: int)
    ensures m >= 0
    decreases |cols|
  {
    if cols == [] then 0
    else
      var rest := GridMaxDrop(cols[..|cols| - 1]);
      var last := MaxDrop(cols[|cols| - 1]);
      if last > rest then last else rest
  }

  /** The longest fall of a column bounds every tile's, and some tile falls that far unless it is 0. */
  lemma {:induction false} MaxDropIsMax(col: seq<Option<Tile>>)
    ensures forall i :: 0 <= i < |col| ==> DropOf(col[i]) <= MaxDrop(col)
    ensures MaxDrop(col) == 0 || exists i :: 0 <= i < |col| && DropOf(col[i]) == MaxDrop(col)
    decreases |col|
  {
    if col != [] {
      var n := |col| - 1;
      var init := col[..n];
      MaxDropIsMax(init);
      forall i | 0 <= i < n
        ensures DropOf(col[i]) <= MaxDrop(col)
      {
        assert col[i] == init[i];
      }
      if MaxDrop(col) != 0 && MaxDrop(col) != DropOf(col[n]) {
        var i :| 0 <= i < n && DropOf(init[i]) == MaxDrop(init);
        assert col[i] == init[i];
      }
    }
  }

  /** The longest fall of the grid bounds every column's, and some column's is that long unless it is 0. */
  lemma {:induction false} GridMaxDropIsMax(cols: seq<seq<Option<Tile>>>)
    ensures forall c :: 0 <= c < |cols| ==> MaxDrop(cols[c]) <= GridMaxDrop(cols)
    ensures GridMaxDrop(cols) == 0 || exists c :: 0 <= c < |cols| && MaxDrop(cols[c]) == GridMaxDrop(cols)
    decreases |cols|
  {
    if cols != [] {
      var n := |cols| - 1;
      var init := cols[..n];
      GridMaxDropIsMax(init);
      forall c | 0 <= c < n
        ensures MaxDrop(cols[c]) <= GridMaxDrop(cols)
      {
        assert cols[c] == init[c];
      }
      if GridMaxDrop(cols) != 0 && GridMaxDrop(cols) != MaxDrop(cols[n]) {
        var c :| 0 <= c < n && MaxDrop(init[c]) == GridMaxDrop(init);
        assert cols[c] == init[c];
      }
    }
  }

  lemma {:induction false} MaxDropGrounded(col: seq<Option<Tile>>)
    requires Grounded(col)
    ensures MaxDrop(col) % STEP == 0
    decreases |col|
  {
    if col != [] {
      var init := col[..|col| - 1];
      assert Grounded(init) by {
        forall i | 0 <= i < |init| && init[i].Some?
          ensures 0 <= init[i].value.drop && init[i].value.drop % STEP == 0
        {
          assert init[i] == col[i];
        }
      }
      MaxDropGrounded(init);
    }
  }

  /** A frame shortens the longest remaining fall of a column by one STEP, down to nothing. */
  lemma {:induction false} ColumnFallShortens(col: seq<Option<Tile>>)
    requires Grounded(col)
    ensures Grounded(ColumnFall(col))
    ensures MaxDrop(ColumnFall(col)) == if MaxDrop(col) >= STEP then MaxDrop(col) - STEP else 0
    decreases |col|
  {
    var fallen := ColumnFall(col);
    if col != [] {
      var init := col[..|col| - 1];
      assert Grounded(init) by {
        forall i | 0 <= i < |init| && init[i].Some?
          ensures 0 <= init[i].value.drop && init[i].value.drop % STEP == 0
        {
          assert init[i] == col[i];
        }
      }
      ColumnFallShortens(init);
      MaxDropGrounded(init);
      assert fallen[..|col| - 1] == ColumnFall(init);
    }
  }

  /** A frame keeps every tile's remaining fall a whole number of STEPs. */
  lemma GridFallGrounded(cols: seq<seq<Option<Tile>>>)
    requires AllGrounded(cols)
    ensures AllGrounded(GridFall(cols))
  {
    forall c | 0 <= c < |cols|
      ensures Grounded(GridFall(cols)[c])
    {
      ColumnFallShortens(cols[c]);
    }
  }

  /**
   * A frame shortens the longest remaining fall of the grid by one STEP,
   * down to nothing, and keeps every drop a non-negative multiple of STEP.
   */
  lemma {:induction false} GridFallShortens(cols: seq<seq<Option<Tile>>>)
    requires AllGrounded(cols)
    ensures AllGrounded(GridFall(cols))
    ensures GridMaxDrop(GridFall(cols)) == if GridMaxDrop(cols) >= STEP then GridMaxDrop(cols) - STEP else 0
    decreases |cols|
  {
    GridFallGrounded(cols);
    if cols != [] {
      var n := |cols| - 1;
      var init := cols[..n];
      assert AllGrounded(init) by {
        forall c | 0 <= c < n
          ensures Grounded(init[c])
        {
          assert init[c] == cols[c];
        }
      }
      GridFallShortens(init);
      ColumnFallShortens(cols[n]);
      var fallen := GridFall(cols);
      GridFallPrefix(cols);
      GridMaxDropLast(cols);
      GridMaxDropLast(fallen);
    }
  }

  lemma GridFallPrefix(cols: seq<seq<Option<Tile>>>)
    requires cols != []
    ensures GridFall(cols)[..|cols| - 1] == GridFall(cols[..|cols| - 1])
  {
  }

  lemma GridMaxDropLast(cols: seq<seq<Option<Tile>>>)
    requires cols != []
    ensures GridMaxDrop(cols) ==
      var rest, last := GridMaxDrop(cols[..|cols| - 1]), MaxDrop(cols[|cols| - 1]);
      if last > rest then last else rest
  {
  }

  /** The grid after `k` frames of the translation animation. */
  function GridFallFrames(cols: seq<seq<Option<Tile>>>, k: nat): (after: seq<seq<Option<Tile>>>)
    ensures |after| == |cols|
    decreases k
  {
    if k == 0 then cols else GridFall(GridFallFrames(cols, k - 1))
  }

  /**
   * After `k` frames the longest remaining fall is the initial one less
   * `k` STEPs, down to nothing: the animation that starts from a longest
   * fall of `m` has every tile in place after `m / STEP` frames.
   */
  lemma {:induction false} GridFallFramesShorten(cols: seq<seq<Option<Tile>>>, k: nat)
    requires AllGrounded(cols)
    ensures AllGrounded(GridFallFrames(cols, k))
    ensures GridMaxDrop(GridFallFrames(cols, k)) == if GridMaxDrop(cols) >= k * STEP then GridMaxDrop(cols) - k * STEP else 0
    decreases k
  {
    if k > 0 {
      var prev := GridFallFrames(cols, k - 1);
      GridFallFramesShorten(cols, k - 1);
      GridFallShortens(prev);
      assert GridFallFrames(cols, k) == GridFall(prev);
      assert k * STEP == (k - 1) * STEP + STEP;
    }
  }

  /** The animation is over exactly when no tile has any way left to fall. */
  lemma GridMaxDropZero(cols: seq<seq<Option<Tile>>>)
    requires AllGrounded(cols)
    ensures GridMaxDrop(cols) == 0 <==>
      forall c, r :: 0 <= c < |cols| && 0 <= r < |cols[c]| ==> DropOf(cols[c][r]) <= 0
  {
    GridMaxDropIsMax(cols);
    forall c | 0 <= c < |cols|
      ensures forall r :: 0 <= r < |cols[c]| ==> DropOf(cols[c][r]) <= MaxDrop(cols[c])
    {
      MaxDropIsMax(cols[c]);
    }
    if GridMaxDrop(cols) != 0 {
      var c :| 0 <= c < |cols| && MaxDrop(cols[c]) == GridMaxDrop(cols);
      MaxDropIsMax(cols[c]);
      var r :| 0 <= r < |cols[c]| && DropOf(cols[c][r]) == MaxDrop(cols[c]);
    }
  }

  /**
   * A grid `after` obtained from `before` by letting every tile fall once is
   * `GridFall(before)`, and a frame in which no tile had any way left is
   * exactly one where the longest fall was zero.
   */
  lemma FallStep(before: seq<seq<Option<Tile>>>, after: seq<seq<Option<Tile>>>, allDone: bool)
    requires AllGrounded(before) && |after| == |before|
    requires forall c :: 0 <= c < |before| ==> |after[c]| == |before[c]|
    requires forall c, r :: 0 <= c < |before| && 0 <= r < |before[c]| ==>
      after[c][r] == if before[c][r].Some? then Some(Fall(before[c][r].value)) else None
    requires allDone <==> forall c, r :: 0 <= c < |before| && 0 <= r < |before[c]| ==> DropOf(before[c][r]) <= 0
    ensures after == GridFall(before)
    ensures allDone <==> GridMaxDrop(before) == 0
  {
    FellAll(before, after);
    GridMaxDropZero(before);
  }

  lemma FellAll(before: seq<seq<Option<Tile>>>, after: seq<seq<Option<Tile>>>)
    requires |after| == |before|
    requires forall c :: 0 <= c < |before| ==> |after[c]| == |before[c]|
    requires forall c, r :: 0 <= c < |before| && 0 <= r < |before[c]| ==>
      after[c][r] == if before[c][r].Some? then Some(Fall(before[c][r].value)) else None
    ensures after == GridFall(before)
  {
    forall c | 0 <= c < |before|
      ensures after[c] == ColumnFall(before[c])
    {
    }
  }
}
