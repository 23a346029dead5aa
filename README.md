# Minesweeper game-state engine, modelled in Dafny

This project models the engine of a browser minesweeper game (`main.js`). The engine is:

- the row-major list of tiles that board set-up builds;
- the phase machine `Initial → Playing → Win | Lose`;
- mine placement that spares the first-clicked cell;
- the neighbour-mine count, built on a distance test;
- the recursive chain reveal of `uncoverTile`;
- the end-of-round handlers;
- the command logic of the mouse-down handler, which turns a clicked tile index into begin, reveal, lose and flag commands.

Files:

- `grid.dfy` (module `Grid`). Index/position geometry: index `x + w*y`, the eight neighbour offsets in the engine's order, and squared distance. It proves that the engine's distance test means "same 3-by-3 block".
- `tiles.dfy` (module `Tiles`). The `Tile` record, `isNearTile` and `getAdjacentMines` as functions. It also has a reference definition of a tile's neighbour mines and the proof that the count matches it.
- `flood.dfy` (module `Flood`). The chain reveal, specified over tile lists:
  - `Reach` is a reference definition of the reveal. A tile is reached from the start when a chain of steps leads to it, and each step goes from a tile with no mines near it to one of its eight offset targets that exists, is covered, is near and is not a mine.
  - `FloodResult` says the new list is the old one with covers removed from exactly the reached tiles.
  - Lemmas prove that the reveal's closure (no eligible target left around any revealed tile that starts a chain) and its soundness (only reached tiles revealed) together give `FloodResult`.
  - The covered count drops by the number of tiles revealed.
- `engine.dfy` (module `Engine`). Class `Game` holds the fields the source keeps in globals and in `tile.list`: `tiles`, `coveredTiles`, `gameState`, `failedTile`, and the constants `width`, `height`, `mineCount`. Its methods mirror `generateMines` (as three loops), `beginGame`, `uncoverTile` with its two nested helpers (mutually recursive, terminating on the number of covered tiles), `winGame`, `loseGame` and the two click branches.

Distances are compared as squared integer distances. The square root is monotone, so the comparison is the same. The nearness bound is the distance from tile 0 to tile `w + 1`:

- on boards at least two columns wide this is squared distance 2 (`NearThresholdIsTwo`);
- on a one-column board it is 4, so a tile two rows away is counted (`OneColumnCountsFar`).

Three behaviours of the code that the model keeps as written:

- **Win test.** The round is won once `coveredTiles <= mineCount`, not only at equality.
- **Clicking a mine.** The tile is uncovered and the counter decremented first. The win test then runs, so the round can pass through Win before `loseGame` sets Lose.
- **Re-clicks.** Left-clicking an already uncovered tile decrements `coveredTiles` again. The class invariant therefore keeps only `coveredTiles <= CountCovered(tiles)`.

## Model

| member | source | states |
|---|---|---|
| Grid.PositionIndexRoundTrip | main.js:96-98 | the tile built for column x, row y sits at index x + w*y, and that index gives back (x, y) |
| Grid.NearThresholdIsTwo | main.js:402 | with at least two columns, tile w+1 is at (1,1), so the nearness bound is squared distance 2 |
| Grid.SqDistAtMostTwo | main.js:400-402 | squared distance at most 2 holds exactly when two cells are at most one column and one row apart |
| Grid.OffsetTarget | main.js:386-394 | with at least three columns, an offset target is adjacent exactly when the step stays inside the column range, and then it is the intended neighbour |
| Grid.AdjacentIsStep | main.js:386-394 | every other cell of a tile's 3-by-3 block is that tile's index plus one of the eight offsets |
| Tiles.CountNearMines | main.js:383-398 | the chain of `count++` tests counts at most one per offset tried |
| Tiles.AdjacentMines | main.js:383-398 | `tile.getAdjacentMines` over the eight offsets in source order; at most eight, and with at least three columns the number of mines in the block (`Tiles.AdjacentMinesCorrect`) |
| Tiles.IsNearTileMeaning | main.js:400-411 | on boards at least two columns wide, `isNearTile` holds exactly for an existing, different tile in the same 3-by-3 block (that is a mine, when asked) |
| Tiles.MinesInDirIsTarget | main.js:386-394 | one offset reaches at most one neighbour mine, the one `isNearTile` accepts at the target index |
| Tiles.MinesInDirsSplit | main.js:386-394 | distinct offsets reach disjoint sets of neighbour mines |
| Tiles.CountNearMinesHits | main.js:383-398 | counting along distinct offsets equals the number of neighbour mines those offsets reach |
| Tiles.AdjacentMinesCorrect | main.js:383-398 | with at least three columns, `getAdjacentMines` equals the number of mines in the tile's 3-by-3 block other than itself |
| Tiles.CountNearMinesLayout | main.js:383-411 | the count depends only on positions and mine flags |
| Tiles.CountsKept | main.js:376-380 | counts stay correct under changes to cover, flag and cross, and the mine set is unchanged |
| Tiles.TwoColumnsCountTwice | main.js:386-394 | on a board two columns wide, tile (0,0) with its only neighbour mine at (1,0) is counted 2 |
| Tiles.OneColumnCountsFar | main.js:386-402 | on a board one column wide, tile (0,0) with mines at (0,1) and (0,2) counts 3: "top" and "right" both reach (0,1), and (0,2), two rows up, is within the bound; its block holds one mine |
| Flood.CountCoveredDrop | main.js:194-196 | when no tile regains its cover, the covered count falls by exactly the number of tiles uncovered |
| Flood.CountCoveredUncover | main.js:195-196 | uncovering one tile lowers the covered count by one, or by nothing if the tile was already uncovered |
| Flood.CountCoveredAll | main.js:93-100 | on an all-covered board the covered count is the number of cells |
| Flood.IneligibleStays | main.js:213-216 | removing covers never makes a chain-reveal target eligible |
| Flood.ClosedAtStays | main.js:203-219 | a finished chain reveal around a tile stays finished as more tiles are uncovered |
| Flood.ProgressTrans | main.js:203-219 | two stretches of chain reveal compose |
| Flood.ProgressThroughUncover | main.js:213-217 | uncovering a covered non-mine neighbour, then completing its own reveal, is progress |
| Flood.TriedStep | main.js:204-211 | having dealt with one more offset target extends the set of offsets dealt with |
| Flood.ProgressRefl | main.js:199-201 | not spreading is (empty) progress |
| Flood.UncoversAfterUncover | main.js:195-200 | removing the target's cover, then only covers, removes only covers |
| Flood.UncoversKeepBoard | main.js:194-220 | the reveal keeps positions, mines and counts, and crosses out nothing |
| Flood.CountCoveredKeep | main.js:65 | toggling a flag leaves the covered count unchanged |
| Flood.EligibleMeaning | main.js:214-215 | the guard of `iterateForAdjacentSafeTile` (target exists, is covered, is near, is not a mine) holds, on boards at least two columns wide, exactly for a covered non-mine tile in the same 3-by-3 block; flags are not consulted |
| Flood.ReachStart | main.js:194-195 | a chain reveal reaches its own start |
| Flood.StepKept | main.js:213-216 | removing covers only removes steps |
| Flood.ReachKept | main.js:203-219 | what is reached in a board is reached in any board it was uncovered from |
| Flood.ReachPrepend | main.js:199-216 | a step from t followed by a chain from j is a chain from t |
| Flood.SoundThroughUncover | main.js:195-200 | removing the target's cover and then only covers of tiles reached from it reveals only tiles reached from it |
| Flood.SoundStep | main.js:213-217 | the recursive reveal from an eligible offset target reveals only tiles reached from the tile that spawned it |
| Flood.StepUncovered | main.js:213-216 | a step out of an uncovered tile whose reveal is complete ends on an uncovered tile |
| Flood.PathUncovered | main.js:199-219 | every tile on a chain of steps from the target ends uncovered |
| Flood.FloodExact | main.js:194-220 | closure and soundness give exactly `FloodResult`: covers removed from precisely the reached tiles |
| Flood.FloodSound | main.js:194-220 | the exact result reveals only reached tiles |
| Flood.UncoverComplete | main.js:195-220 | uncovering t and then closing its chain reveal, revealing only tiles reached from t, is a cover-only change with exactly the reference result, and the covered count falls by the number of covers removed |
| Flood.FloodCount | main.js:196-220 | the reference reveal from t lowers the covered count by exactly the number of covered tiles reached from t |
| Engine.RevealOnLoss | main.js:230-238 | an unflagged mine is uncovered; a flagged non-mine is unflagged and crossed; flagged mines and all other fields keep their values |
| Engine.SpliceDistinct | main.js:372 | splicing out the chosen index keeps the list free of repeats, and the list keeps every other index |
| Engine.AvailableTiles | main.js:363-366 | the list holds every board index except `ignore`, each once, and has cells − 1 entries when `ignore` is on the board |
| Engine.FreshBoard | main.js:96-100 | a freshly built board is row-major and has no mines |
| Engine.Game.constructor | main.js:93-100 | board set-up: w*h covered tiles in row-major order, `coveredTiles == w*h`, phase Initial, class invariant established |
| Engine.Game.GenerateMines | main.js:359-381 | exactly min(count, cells − 1) distinct tiles become mines and `ignore` is not one of them. Cover, flag, cross and position are untouched and mines keep their count. Every non-mine holds `getAdjacentMines`, which with at least three columns is the number of mines in its block |
| Engine.Game.PlaceMines | main.js:369-373 | n distinct indices drawn from the available list become mines, and no other field or tile changes |
| Engine.Game.SetNearMines | main.js:376-380 | every non-mine gets its `getAdjacentMines` count, and mines and all other fields are unchanged |
| Engine.Game.BeginGame | main.js:189-192 | moves to Playing with min(mineCount, cells − 1) mines, none on the clicked tile. Every tile is still covered, unflagged and uncrossed, mines count 0, and non-mines count their block's mines |
| Engine.Game.WinGame | main.js:241-245 | the phase becomes Win |
| Engine.Game.UncoverTile | main.js:194-224 | the new list is the old one with covers removed from exactly the tiles `Reach` gives from the target (`FloodResult`); every other tile uncovered is a non-mine whose chain reveal is complete; without a chain reveal only the target changes; `coveredTiles` strictly decreases, and on a covered target by exactly the number of tiles uncovered; the phase becomes Win exactly when `coveredTiles <= mineCount`, else stays |
| Engine.Game.UncoverAdjacentSafeTiles | main.js:203-211 | tries the eight offset targets in order. Afterwards none of them is eligible; every tile uncovered on the way is a non-mine whose own reveal is complete and is reached from t by a chain of steps (`Sound`). The counter moves with the covered count. The phase becomes Win exactly when it was Win or some nested reveal lowered `coveredTiles` to `mineCount` or below, and stays otherwise |
| Engine.Game.IterateForAdjacentSafeTile | main.js:213-219 | after the call, the n-th offset target is not eligible and every earlier offset stays done; an ineligible target changes nothing at all, and an eligible one gets exactly the chain reveal from j (`FloodResult` from j); everything revealed since the surrounding reveal began is reached from t; the phase follows the same exact rule as in `UncoverAdjacentSafeTiles` |
| Engine.Game.LoseGame | main.js:226-239 | phase Lose, `failedTile` is the clicked tile, and every tile takes its end-of-round look (`RevealOnLoss`) |
| Engine.Game.LeftClick | main.js:51-62 | keeps the class invariant; phases only advance and `coveredTiles` never rises; off the board, on a flagged tile or in Win/Lose nothing changes; otherwise the tile ends uncovered, the round is Lost on it exactly when it is a mine, else Won exactly when `coveredTiles <= mineCount` and Playing otherwise; a first click never hits a mine and leaves a post-placement board that is all covered, unflagged and uncrossed, with every mine holding a count of 0; `coveredTiles` falls by exactly the number of covered tiles reached from the clicked one, and by one more when that tile was already uncovered; every tile is its value on the board before the reveal (after mine placement on a first click) with its cover removed exactly when reached from the clicked tile, followed by `RevealOnLoss` when the round is lost |
| Engine.Game.RevealClicked | main.js:57-60 | the playing branch of a left click: the same reveal, counter and loss results, relative to the board before the click |
| Engine.Game.RightClick | main.js:63-66 | flips the flag of exactly the clicked tile when Playing and that tile is covered; otherwise nothing changes. Off the board while Playing it reports the thrown error |

## Left out

- Rendering (`draw`, `drawTile`, `drawText`, `drawImage`), console output, the timer loop and the event-listener wiring. These are presentation and I/O with no game state.
- The pointer-to-index mapping (main.js:46-49: float division, `parseInt`, `isPointInBounds`). The click methods take the resulting index, −1 meaning off the board.
- `Math.random`. Each choice in the placement loop is an arbitrary index of the available list (`:|`), not a distribution.
- The density arithmetic `Math.ceil(coveredTiles * gameDifficulty)` (main.js:94), which is floating point. `mineCount` is a constructor parameter.
- `vector2.distance` (square root). It is replaced by squared integer distance, which orders integer points the same way.
- Engine.Game.UncoverAdjacentSafeTiles: the eight calls of the source are written as one loop over the offsets, in the same order (top, bottom, left, right, bottom-left, bottom-right, top-left, top-right).
- Engine.Game.GenerateMines: states the block-count meaning of `nearMines` only for boards at least three columns wide. On two-column boards two offsets coincide and a neighbour is counted twice (`Tiles.TwoColumnsCountTwice`).
- Engine.Game.BeginGame: inherits the same three-column condition on the neighbour counts.
- Engine.Game.UncoverTile: requires only the board shape and a playing phase, not the whole class invariant, and does not restate the invariant. `Engine.Game.RevealClicked` re-establishes it.
- Engine.Game.RevealClicked: lines 57-60 of the click handler as a method of their own, so that the handler's proof stays small; the handler calls it where the source has those lines.
- Engine.Game.Valid: keeps `coveredTiles <= CountCovered(tiles)` rather than equality, because a re-click on an uncovered tile decrements the counter again.
- Engine.Game.RightClick: models the error thrown for an off-board index during play as the `thrown` result, with the state left as it was. The exception itself is not modelled.
- Engine.Game.PlaceMines: models the splice on a value list, not an in-place array, so aliasing of the available list is not captured.
- The reset to a new round is not part of this code.
