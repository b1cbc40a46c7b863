# Zero-Sum grid engine, modelled in Dafny

Zero-Sum is a browser puzzle on a 5×5 grid of tiles. A tile is an Adder
(`+v`), a Multiplier (`×2` or `×-1`) or a Square (`x²`). The player drags
a path of edge-adjacent tiles. The path must start on an Adder, and its
running sum folds the tiles' operators from 0. A path released with sum 0
scores the square of its length. Its tiles then shrink away, the tiles
above them fall into the gaps, and new tiles drop in from above the grid.
New tiles come from a generator that throttles Multipliers and Squares and
balances positive against non-positive Adders.

The model covers the engine in `game.js`:

- `Tiles`: the three tile operators, and one frame of the collapse and
  drop animations for a single tile.
- `Paths`: the path acceptance rule and the running sum as a left fold.
- `Generation`: the census of the grid, the throttle, the Adder skew
  correction and `getRandomIntInclusive`.
- `Compaction`: the bottom-up shift of one column over its empty cells,
  as pure functions on a column, and the count of new tiles.
- `Animation`: the drop animation on the whole grid, and why it stops.
- `Refill`: the reference definitions of everything that calls
  `generateTile`. These are `init`, which fills the grid cell by cell, and
  the shift and refill of `vanishFrame`, on a `Board` value (the columns
  plus `tick` and the two `lastGen` entries). Each new tile is the one
  `Decide` picks on the census of the grid just before it is stored.
  Lemmas here show that `init` and a vanish never leave more than one
  Multiplier or one Square on the grid.
- `Engine`: class `Game`. It holds the column-major grid as an
  `array2<Option<Tile>>`, the path, the sum, the generation history, the
  score, the animation flag and the fidget state. It also holds the input
  handlers and the animation frames that update them in place. Its
  invariant `Valid()` ties the grid to the animation in progress. At rest,
  every tile sits at the centre of its cell, the path starts on an Adder,
  and `sum` is the fold of the path's operators. In every phase the grid
  holds at most one Multiplier and at most one Square.
- `Findings`: `gameOver` as written, with two inputs that show where it
  falls short.

`requestAnimationFrame` becomes a `phase` field (`Idle`, `Vanishing`,
`Translating`, `Fidgeting`), which names the frame callback scheduled
next. The caller drives frames through `VanishFrame`, `TranslateFrame` and
`FidgetFrame`. `Math.random()` becomes a `Draw`, the two values one call
of `generateTile` would read. The fidget clock becomes the `expired`
parameter of `FidgetFrame`.

## Model

| member | source | states |
|---|---|---|
| `Tiles.ApplyOp` | game.js:69-71 | The operator of `Tile`, `MultiplierTile` (lines 111-113) and `SquareTile` (lines 148-150). Subtracting an Adder's value undoes it. A Square is never negative and is zero exactly on zero. `×-1` negates. A Multiplier or a Square cannot move a sum of zero. |
| `Tiles.KindOf` | game.js:73-76 | `getType()` of the three classes: `ADD` exactly for Adders, `MULTIPLIER` exactly for Multipliers. |
| `Tiles.Collapse` | game.js:279-287 | One vanish frame on a path tile: a tile with size left shrinks by 10 and hides its text, and nothing else about it changes (operator, centre, `drop`, highlight). A tile with no size left is unchanged. |
| `Tiles.Fall` | game.js:349-356 | One translate frame on a tile: a tile with `drop > 0` loses 10 of `drop` and moves 10 down. `cy + drop`, the operator, the abscissa, the size, the highlight and the text flag are unchanged. |
| `Tiles.CollapseLands` | game.js:277-288 | From a size that is a multiple of 10, after `n` frames the size is `size - 10n`, or exactly 0 once that would be negative. |
| `Tiles.FallLands` | game.js:345-365 | From a drop that is a multiple of 10, after `n` frames `cy + drop` is unchanged and the drop is `drop - 10n`, or exactly 0 once that would be negative. |
| `Paths.TouchesIsUnitDistance` | game.js:256-259 | The four adjacency tests of `maybeAddToPath` hold exactly at Manhattan distance 1: no diagonals, and no cell touches itself. |
| `Paths.ExtendKeepsWellFormed` | game.js:239-269 | Appending a coordinate the rule accepts keeps the path in the grid, duplicate-free, and with every member touching some earlier member. |
| `Paths.SumFromSnoc` | game.js:261 | Folding the operators over a path extended by one tile is the same as applying that tile's operator to the fold so far. |
| `Paths.PathSumSnoc` | game.js:251 | The path sum from 0 of an extended path is the new tile's operator applied to the previous path sum. |
| `Generation.CensusSeesTile` | game.js:376-398 | Every tile on the grid is counted in its class. A Multiplier or a Square anywhere on the grid makes its count non-zero. |
| `Generation.GrowScarce` | game.js:400-418 | A grid with at most one Multiplier and one Square keeps that property when one tile is added, if a Multiplier or Square is only added while a census covering the grid counts none. |
| `Generation.RandomIntInclusive` | game.js:221-225 | For any `Math.random()` value in [0, 1), the result lies in [min, max]. |
| `Generation.AdderRange` | game.js:424-430 | More than 5 more positives than non-positives gives [-9, 0]. More than 5 more non-positives gives [0, 9]. Otherwise the range is [-9, 9]. |
| `Generation.Decide` | game.js:400-430 | A Multiplier comes exactly when `r > 0.8` and the Multiplier kind is allowed: none is counted and more than 10 ticks have passed since the last one. It is `×2` exactly when `r > 0.9`, otherwise `×-1`. A Square comes exactly when `0.7 < r <= 0.8` and the Square kind is allowed. A throttled draw gives an Adder. A `lastGen` entry changes only when its kind is emitted, and then becomes `tick`. An Adder's value is the draw within `AdderRange`, so it is skew-corrected and within ±9. |
| `Compaction.Fallen` | game.js:309-323 | The survivors of a column plus its empty cells make up the column. |
| `Compaction.Shifted` | game.js:309-323 | After the shift, the rows below the top `holes` rows all hold tiles. The top `holes` rows keep what they held, stale copies included. |
| `Compaction.ShiftedMovesDown` | game.js:316-321 | The tile in row `i` moves to row `i + h`, and its `drop` becomes `h × TILE_SIZE`, where `h` is the number of empty cells below it. |
| `Compaction.ShiftKeepsOrder` | game.js:311-322 | Of two survivors of a column, the upper one still lands above the lower one. |
| `Compaction.ShiftedLands` | game.js:316-321 | Once its drop is spent, every shifted survivor is centred in the row it now occupies. |
| `Compaction.ShiftedLanding` | game.js:309-323 | Every shifted survivor of a column at rest stays in its column, at full size, with a non-negative multiple of 10 to fall, and lands in its new row. |
| `Compaction.CarvedHoles` | game.js:277-288 | When a duplicate-free path's tiles leave a column, the column has exactly one empty cell per path member in that column. |
| `Compaction.CarvedGridHoles` | game.js:307-337 | Each column receives exactly as many new tiles as the path took from it, and the whole refill generates exactly one tile per path member. |
| `Animation.MaxDropIsMax` | game.js:345-365 | The largest remaining drop of a column bounds every tile's drop, and some tile attains it unless it is 0. |
| `Animation.GridMaxDropIsMax` | game.js:345-365 | The largest remaining drop of the grid bounds every column's, and some column attains it unless it is 0. |
| `Animation.GridFallShortens` | game.js:345-365 | One translate frame keeps every drop a non-negative multiple of 10, and lowers the largest drop on the grid by exactly 10, or leaves it 0. |
| `Animation.GridFallFramesShorten` | game.js:345-365 | After `k` translate frames the largest drop is the initial one less `10k`, or 0 once that would be negative. So the animation ends after exactly `max drop / 10` moving frames. |
| `Animation.GridMaxDropZero` | game.js:347-362 | The largest drop is 0 exactly when no tile has any drop left, which is the test that ends `translateFrame`. |
| `Refill.Generate` | game.js:370-431 | One `generateTile`: `tick` grows by one and the grid is unchanged. The tile is a new tile at `(cx, cy)`. A Multiplier or Square is only generated while the grid holds none of its kind, and then its `lastGen` entry becomes the new tick. Otherwise the entry is unchanged. |
| `Refill.Place` | game.js:172-175 | A generated tile is stored in one cell, and the grid is counted before the store. `tick` grows by one, and each `lastGen` entry is either kept or set to the new tick. |
| `Refill.RefillColumnFrom` | game.js:328-336 | The refill of a column with `n` new tiles, from `negRow == k` on, consumes `n - k` ticks. |
| `Refill.RefillColumnAdvance` | game.js:328-336 | After one store of the column's refill loop, the rest of the loop runs from the new state to the same result. |
| `Refill.RefillAdvance` | game.js:327-337 | After one column of the refill loop, the remaining columns run from the new state, on the draws that column left, to the same result. |
| `Refill.Carve` | game.js:286 | A cell is empty exactly when it is on the path, and otherwise unchanged. |
| `Refill.InitColumnFrom` | game.js:171-176 | The inner loop of `init`, from row `row` on, consumes one tick per remaining row. |
| `Refill.InitFrom` | game.js:170-177 | `init` from column `col` on consumes one tick per remaining cell. |
| `Refill.InitColumnStep` | game.js:170-177 | After one column of `init`, the remaining columns run from the new state to the same result. |
| `Refill.InitAdvance` | game.js:171-176 | After one store of `init`'s inner loop, the rest of the column runs from the new state to the same result. |
| `Refill.InitColumnCentres` | game.js:171-176 | The inner loop of `init` puts a full-size tile with no drop at the centre of every remaining cell of its column, and leaves every other cell alone. |
| `Refill.InitCentres` | game.js:167-178 | `init` puts a full-size tile with no drop at the centre of every cell of the remaining columns, and leaves the earlier columns alone. |
| `Refill.InitColumnScarce` | game.js:171-176 | If the cells `init` has already filled hold at most one Multiplier and one Square, they still do once the column is done. |
| `Refill.InitPlaceScarce` | game.js:172-175 | A store of `init` keeps the filled part of the grid holding at most one Multiplier and one Square, because the new tile was chosen on a census of the whole grid. |
| `Refill.InitScarceAll` | game.js:167-178 | Whatever the grid held before, after `init` it holds at most one Multiplier and one Square. |
| `Refill.RefillColumnScarce` | game.js:328-336 | The refill of one column keeps at most one Multiplier and one Square in the part of the grid that is already final. |
| `Refill.RefillScarce` | game.js:327-337 | If the survivors hold at most one Multiplier and one Square, the refilled grid does too. |
| `Refill.CompactedScarce` | game.js:307-337 | The shift and refill never make a second Multiplier or Square. The survivors are the grid's own tiles, and each new tile is chosen on a census that counts them all. |
| `Refill.FinalFrameScarce` | game.js:277-341 | A whole vanish keeps at most one Multiplier and one Square: the path's tiles leave, the refill adds none in excess, and the first drop frame only moves tiles. |
| `Refill.QuietVanish` | game.js:277-341 | The vanish frame over an empty path on a grid at rest changes nothing: no cell is empty, no tile moves or is generated, and the drop that follows ends at once. |
| `Engine.Game.CountTiles` | game.js:376-398 | The counting loops compute the census of the whole grid, column by column, skipping empty cells. |
| `Engine.Game.CountColumn` | game.js:377-397 | The inner counting loop adds the census of one column to the running census. |
| `Engine.Game.GenerateTile` | game.js:370-431 | `tick` grows by exactly one. The grid is counted after that tick. The new tile, and the new `lastGen` entries, are those `Decide` picks for the draw. |
| `Engine.Game.GetTileForPoint` | game.js:191-204 | The result is the first cell in column-major order whose inclusive box contains the point. The result is none exactly when no box contains it. |
| `Engine.Game.SettledLookup` | game.js:191-204 | On a grid at rest, every point of the grid's area lies in some box, and the first such box is the cell `PointCell` computes. |
| `Engine.Game.IdleGridExtend` | game.js:249-264 | Accepting a coordinate keeps the path well formed and starting on an Adder. The new sum is the fold of the extended path's operators. |
| `Engine.Game.MaybeAddToPath` | game.js:239-269 | The result is true exactly when the coordinate is resolved, not on the path, and either the path is empty (any first tile is taken here; the listeners admit only an Adder) or it touches some member of the path. If accepted, the coordinate is appended and its operator applied to the sum. If rejected, the path and sum are unchanged. The invariant is kept. |
| `Engine.Game.Append` | game.js:250-252 | The coordinate is pushed, its operator is applied to the sum, and the invariant is kept. |
| `Engine.Game.ClearHighlights` | game.js:211-218 | Every tile loses its highlight, and nothing else changes. |
| `Engine.Game.ClearColumnHighlights` | game.js:213-216 | Every tile of one column loses its highlight, and every other column is unchanged. |
| `Engine.Game.HighlightTile` | game.js:206-209 | That one tile is highlighted, and every other cell is unchanged. |
| `Engine.Game.CollapsePath` | game.js:277-288 | Each path tile shrinks by 10, or is removed when it has no size left. Other cells are unchanged. All path tiles share one size, so the frame reports done exactly when the path is empty or that size is 0. |
| `Engine.Game.ShiftColumn` | game.js:309-323 | The bottom-up pass returns the column's number of empty cells. It leaves the column as `Shifted` describes, and every other column unchanged. |
| `Engine.Game.PlaceNew` | game.js:329-335 | The grid and history become `Place` of the old ones: the generated tile, with the given drop, is stored in the cell, and every other cell is unchanged. |
| `Engine.Game.RefillColumn` | game.js:328-336 | The new state is `RefillColumnFrom` of the old one. `tick` grows by `n`. The top `n` rows receive new tiles, each with `drop = n × TILE_SIZE`, each landing in its own row. Every other cell is unchanged. |
| `Engine.Game.RefillCells` | game.js:328-336 | The loop stores all `n` new tiles of the column, each landing in its row, and leaves the rest of the refill with nothing to do. |
| `Engine.Game.RefillCell` | game.js:329-335 | One pass stores the tile for `negRow` in row `n - negRow - 1`, where its drop lands it, and the rest of the refill runs from the new state. |
| `Engine.Game.ShiftAll` | game.js:307-324 | `newTilesPerCol[c]` is column `c`'s number of empty cells, and every column is shifted. |
| `Engine.Game.RefillAll` | game.js:327-337 | The new state is `RefillFrom` of the old one. Each column's top `newTilesPerCol[c]` rows receive new tiles with `drop = newTilesPerCol[c] × TILE_SIZE`, each landing in its own row. `tick` grows by the total. The rest is unchanged. |
| `Engine.Game.RefillNextColumn` | game.js:328-336 | One pass of the outer refill loop refills one column and leaves the remaining columns to run, on the draws it left, to the same result. |
| `Engine.Game.Compact` | game.js:307-337 | The new state is `Compacted` of the old one. Afterwards every cell holds a tile that lands in that cell, and the grid holds at most one Multiplier and one Square. Survivors are the shifted column. Each column's new tiles fill its top `holes` rows with `drop = holes × TILE_SIZE`. `tick` grows by the number of empty cells. |
| `Engine.Game.RefillShifted` | game.js:327-337 | After the shift of `b`, the refill yields `Compacted(b)`, every cell landing on its own row, with at most one Multiplier and one Square. |
| `Engine.Game.Compacting` | game.js:307-337 | A grid refilled after the shift is the compacted board, and keeps at most one Multiplier and one Square. |
| `Engine.Game.CompactLands` | game.js:316-335 | Shifted survivors and refilled tiles together land every cell of the grid on its own row. |
| `Engine.Game.VanishFrame` | game.js:271-343 | While the path's tiles have size left, they shrink by 10, and the path and `tick` stay. In the frame that finds them gone, the state becomes `FinalFrame` of the old one: the path is emptied and the sum reset, exactly `|path|` tiles are generated, and the drop animation takes over. The invariant is kept. |
| `Engine.Game.DropFrame` | game.js:292-341 | Once the path's tiles are gone, the state becomes `FinalFrame`, and the animation stays running exactly when the refilled grid has something to fall. |
| `Engine.Game.FinishVanish` | game.js:292-337 | The path and sum are reset, exactly `|path|` new tiles are generated, and the grid becomes `Compacted` of the carved one. |
| `Engine.Game.EndVanish` | game.js:293-297 | The path and sum are reset and the drop animation is next, with the grid and history unchanged. |
| `Engine.Game.Vanished` | game.js:292-341 | Compacting the carved grid and letting it fall one frame is `FinalFrame`. |
| `Engine.Game.TranslateFrame` | game.js:345-365 | Every cell becomes `GridFall` of its old contents. The animation ends exactly when no tile had any drop left. |
| `Engine.Game.EndTranslate` | game.js:362-364 | When nothing had any way left to fall, the animation ends with the grid at rest. |
| `Engine.Game.FallCells` | game.js:346-360 | Every tile falls one frame. The frame reports done exactly when no tile had a positive drop, and then the grid is at rest. |
| `Engine.Game.FallColumn` | game.js:348-357 | Every tile of one column falls one frame, and the other columns are unchanged. The result reports whether some tile in the column had a positive drop. |
| `Engine.Game.Fidget` | game.js:434-447 | The fidgeting tile and its resting abscissa are recorded, the first frame moves it 3 right, and every other cell is unchanged. |
| `Engine.Game.StartFidget` | game.js:435-444 | The tile and its resting abscissa, the tile's centre, are recorded, and the animation runs. |
| `Engine.Game.FidgetFrame` | game.js:449-467 | An expired fidget restores the tile's abscissa and ends the animation. Otherwise the tile moves 3 right or left, alternately. Other cells are unchanged. |
| `Engine.Game.EndFidget` | game.js:452-458 | The tile goes back to its resting abscissa and the grid is at rest. Other cells are unchanged. |
| `Engine.Game.FidgetStep` | game.js:459-466 | The tile moves 3 right when the toggle is set and 3 left otherwise, and the toggle flips. Other cells are unchanged. |
| `Engine.Game.MoveTile` | game.js:454 | Only the tile's abscissa changes, so the census is unchanged. |
| `Engine.Game.Visit` | game.js:536-545 | On an empty path, a point over a non-Adder clears every highlight, makes that tile fidget 3 right of its centre, and leaves the path empty. Otherwise an accepted cell joins the path, adds its operator to the sum and is highlighted, and a refused one changes nothing. No other tile changes. |
| `Engine.Game.FidgetInstead` | game.js:538-542 | Every highlight is cleared, and the tile moves 3 right of its centre to fidget. |
| `Engine.Game.AddAndHighlight` | game.js:543-545 | An accepted cell joins the path, adds its operator to the sum and is highlighted. A refused one changes nothing. No other cell changes. |
| `Engine.Game.MouseDown` | game.js:527-547 | A press while enabled starts a gesture. If no gesture and no animation was running, it visits the point as `Visit` states. Otherwise the path, sum, phase and grid are unchanged. |
| `Engine.Game.MouseMove` | game.js:548-567 | A move during a gesture with no animation running visits the point as `Visit` states. Otherwise the path, sum, phase and grid are unchanged. |
| `Engine.Game.UpdatePoints` | game.js:500-503 | The score grows by exactly the square of the path's length. |
| `Engine.Game.MouseUp` | game.js:568-587 | Releasing a non-empty gesture with sum 0 adds the square of the path length to the score. The path keeps vanishing, its tiles one frame smaller. An empty one is gone at once: the game is idle again with the grid, `tick` and generation history unchanged. A non-zero sum empties the path, resets the sum, clears the highlights, and keeps the score and tiles. A release that is ignored changes nothing. |
| `Engine.Game.ClearZeroPath` | game.js:577-579 | The score grows by the square of the path length. A non-empty path is vanishing after its first frame, its tiles one step smaller and nothing else changed. An empty path is gone at once: the phase is idle and the grid, `tick` and generation history are unchanged. |
| `Engine.Game.VanishNothing` | game.js:277-341 | The vanish of an empty path: its first frame finds no tile with size left, carves, shifts and generates nothing, and the drop ends at once. The game is idle again with the grid, `tick` and generation history unchanged. |
| `Engine.Game.DropPath` | game.js:581-584 | Highlights are cleared, and the path and sum are reset. |
| `Engine.Game.StartVanish` | game.js:579 | A path at rest starts to vanish from full size. |
| `Engine.Game.GameOver` | game.js:492-498 | Corrected: input is disabled, no gesture is in progress, and the sum is 0. At rest, the path and highlights are cleared. During an animation, the path and grid are left to it. |
| `Engine.Game.ForgetGesture` | game.js:494 | At rest, the path is dropped, and with it (corrected) its sum. |
| `Engine.Game.Disable` | game.js:496 | Input is disabled and (corrected) no gesture is in progress, with the sum 0. |
| `Engine.Game.StartGame` | game.js:484-490 | Input is enabled, and the invariant is kept. |
| `Engine.Game.Init` | game.js:167-178 | The new state is `InitFrom` of the old one: a new tile is generated at the centre of every cell, for 25 ticks in all. The grid is then at rest and holds at most one Multiplier and one Square. |
| `Engine.Game.CentredSettled` | game.js:172-175 | A grid with a new tile at the centre of every cell is at rest. |
| `Engine.Game.InitNextColumn` | game.js:170-177 | One pass of `init`'s outer loop fills one column and leaves the remaining columns to run to the same result. |
| `Engine.Game.InitColumn` | game.js:171-176 | The inner loop of `init` makes the state `InitColumnFrom` of the old one, in 5 ticks. |
| `Engine.Game.InitCell` | game.js:172-175 | One store of `init` generates the tile for its cell, and the rest of the column runs from the new state to the same result. |
| `Engine.Game.PlayAgain` | game.js:591-597 | After a game over, the grid is generated afresh (the board becomes `InitFrom` of the old one, 25 ticks later) and input enabled. The game starts from an empty path with sum 0 and no gesture, and the score is kept. |
| `Engine.Game.constructor` | game.js:523-524 | A filled grid at rest. There is no path, no score and no animation, and input is disabled. |
| `Findings.GameOverAsWritten` | game.js:492-498 | As written: the path is emptied and input disabled, but `currentSum` and `inPath` are kept. |
| `Findings.PlayAgainAsWritten` | game.js:591-597 | As written, for the gesture state: only `enabled` changes. |
| `Findings.MoveOntoAdder` | game.js:558-564 | A move over an Adder during a gesture, on an empty path, starts the path and applies the operator to the sum as it stands. |
| `Findings.StaleSumAfterGameOver` | game.js:492-498 | A concrete game-over during a drag on `+3` is followed by play-again and a mouse move over `-3`. This starts a path whose sum is 0 although its operators fold to -3. |
| `Findings.HalfVanishedTileStays` | game.js:277-341 | A game over five frames into a vanish empties the path. The next frame finds no path tile with size left and takes the path as gone. It carves, shifts and generates nothing, and the drop ends at once, so the half-sized tile with hidden text stays in its cell. |

## Left out

- Rendering, the canvas setup, colours and text (`render`, `draw`, `updateCurrentPathSumText`, the DOM text of `updatePoints`): view only.
- The countdown timer (`startTimer`, `setInterval`) and the overlays shown by `startGame` and `gameOver`. The model only has the state changes that the game-over and start events make.
- `Date.now()` in the fidget becomes the `expired` argument of `FidgetFrame`. `Engine.Game.Fidget` takes its first frame as not expired, as it is when 0 ms have passed.
- `Math.random()` becomes the `Draw` values. A `Draw` is a pair of reals in [0, 1), so the IEEE rounding of `Math.random() * n` is not modelled. Every operation that may generate tiles takes 25 draws, the most one call can consume.
- Tiles are values in the grid, not shared objects. The source's shift copies references without clearing the old cell. The model leaves the pre-shift value there instead. It differs only in `drop`, which the census does not read and the refill overwrites. The refill's census can count such a stale copy twice, and the model counts it twice too.
- Coordinates are integers. Centres fall at multiples of 50 and the frames move by 10 or 3, so nothing fractional arises.
- `Engine.Game.MouseDown`, `Engine.Game.MouseMove` and `Engine.Game.Visit` require the point to lie in the grid's area. Outside it, `getTileForPoint` returns undefined and the handlers dereference it. That crash is not modelled.
- `Engine.Game.MaybeAddToPath` requires a first tile to be an Adder. The start-tile rule is applied by its callers (`Engine.Game.Visit`), as in the source.
- `Engine.Game.PlayAgain` requires no animation to be running when the button is clicked. A click during a running vanish or drop is not modelled.
- The vanish animation also runs for an empty path released with sum 0, as the code does. It clears at once, with no score and no refill.
- No setting switches arithmetic tiles off. The code has no such setting.
- `currentPoints` is never reset, not even on play-again, and the model keeps it the same way.

## Findings

| source | as written | input that shows it | evidently intended | confidence | as-written member | corrected member |
|---|---|---|---|---|---|---|
| game.js:492-498 | `gameOver` empties `currentPath` but keeps `currentSum`. The mouseup that follows is ignored while disabled, so `inPath` stays set. | The timer expires while dragging over a single `+3`. After play-again, moving over a `-3` starts a path with sum 0 although its operators fold to -3. Releasing it scores a path that does not sum to zero. | Game over ends the gesture: the sum becomes 0 and `inPath` false, so a new game starts from an empty path whose sum is the fold of its operators. | high; not executed | `Findings.StaleSumAfterGameOver` | `Engine.Game.PlayAgain` |
| game.js:492-498 | `gameOver` empties `currentPath` even while the path is vanishing. | The timer expires five frames into the vanish of a one-tile path. The next frame finds no path tile with size left and ends the vanish with nothing carved, shifted or generated, so the half-sized tile with hidden text stays on the grid. Input stays disabled after game over and play-again's `init` (game.js:167-178) overwrites every cell, so the tile lasts only until play-again. | Game over leaves a running animation to finish: the vanish clears the path, compacts and refills. | medium; not executed | `Findings.HalfVanishedTileStays` | `Engine.Game.GameOver` |
