# SimpleMatch board engine in Dafny

A model of the board engine of SimpleMatch, a match-three game. The engine is
`GameModel`, and the model also covers the value and record types it uses:
`TileDescriptionId`, `TileDescription`, `TileModel`, `MatchModel` and
`SwapResultModel`.

The board is an immutable `map<Vec, TileModel>` from integer cells to tile
records. Each `GameModel` method is a pure transition on a `Game` value. That
value holds the board, the pending `_tilesToCheck` list, the `_tileIds` counter
and the `Min`/`Max`/`Center` bounds. Unity's random generator becomes an
oracle `draw: nat -> int`. The static state of `TileModel` (the `_seed`
counter and the `Pool` stack) and of `TileDescription` (the registry) become
explicit values that the operations take and return.

One module per component:

| module | file | models |
|---|---|---|
| `Wrappers` | wrappers.dfy | `Option` and `Result` |
| `Geometry` | geometry.dfy | `Vector2Int`, and C#'s truncating `/ 2` |
| `TileDescriptionIds` | tile_description_id.dfy | null-aware equality, hash and `ToString` of a kind id |
| `TileDescriptions` | tile_description.dfy | the kind registry, its `Add`, and the four built-in kinds |
| `TileModels` | tile_model.dfy | the tile record, the id counter, and the LIFO reuse pool |
| `MatchModels` | match_model.dfy | the matched/created/moved accumulator and `Clear` |
| `SwapResults` | swap_result.dfy | the two-variant swap outcome |
| `GameState` | game_state.dfy | the `GameModel` state, `TilesFrame`, `CreateTile`, and the board invariant |
| `MatchDetection` | match_detection.dfy | `AddCheckTile`, `IsMatch`, `FindMatch`, and the six-window scan |
| `SwapEngine` | swap_engine.dfy | `SwapModels`, `MoveColumnDown`, `Swap`, and the corrected swap |
| `MapCreation` | map_creation.dfy | `Shuffle` and `CreateMap` |
| `SwapExamples` | swap_examples.dfy | concrete boards where the code as written goes wrong |

The board invariant `GameState.Consistent` has four parts:

- every tile is stored under its own position;
- no two cells hold tiles with the same id;
- every id was issued by the counter;
- the counter is at least 1.

`CreateTile`, `CreateMap`, `SwapModels`, `MoveColumnDown` and `Swap` all
preserve it.

Three features of the code shape the model:

- The engine has no refill, no cascade and no search for a possible move.
  A swap resolves at most one frame, and the cells it empties stay empty.
- `Max` is the centre shift minus one, and `Min` is minus the shift
  (GameModel.cs:31-33). For an odd width or height the grid's last column or
  row therefore lies one beyond `Max` (`MapCreation.GridWithinBoundsIffEven`).
- `FindMatch` overwrites the frame it found with `default` before returning
  (GameModel.cs:132). `Swap` therefore always resolves cell `(0,0)`; see
  "## Findings".

## Model

| member | source | states |
|---|---|---|
| Geometry.Half | Assets/Scripts/GameModel.cs:31 | `n / 2` truncates toward zero: for `n >= 0` the result is the floor of half of `n`, and for negative `n` it is the ceiling |
| TileDescriptionIds.Eq | Assets/Scripts/TileDescriptionId.cs:34-52 | `==` is true for two nulls and false when exactly one side is null; otherwise it compares the wrapped strings, so it agrees with value equality |
| TileDescriptionIds.Neq | Assets/Scripts/TileDescriptionId.cs:54-57 | `!=` holds exactly when the two ids differ |
| TileDescriptionIds.Equals | Assets/Scripts/TileDescriptionId.cs:14-17 | the typed `Equals` is true iff the argument is non-null and wraps the same string |
| TileDescriptionIds.EqualsObject | Assets/Scripts/TileDescriptionId.cs:19-22 | `Equals(object)` is true iff the object is a `TileDescriptionId` equal to this one |
| TileDescriptionIds.EqualsObjectAgrees | Assets/Scripts/TileDescriptionId.cs:19-22 | `Equals(object)` agrees with the typed `Equals` on ids, and is false for null and for other classes |
| TileDescriptionIds.GetHashCode | Assets/Scripts/TileDescriptionId.cs:24-27 | a null string hashes to 0; otherwise the hash is the string hash of what `ToString` returns |
| TileDescriptionIds.ToString | Assets/Scripts/TileDescriptionId.cs:29-32 | wrapping the returned string again gives back the same id, null included |
| TileDescriptionIds.HashAgreesWithEquals | Assets/Scripts/TileDescriptionId.cs:24-27 | equal ids hash alike for every string hash, and a null string hashes to 0 |
| TileDescriptionIds.ToStringRoundTrip | Assets/Scripts/TileDescriptionId.cs:9-12 | `ToString` returns exactly the string the constructor stored, null included |
| TileDescriptionIds.NeqNegatesEq | Assets/Scripts/TileDescriptionId.cs:34-57 | `!=` is the negation of `==` on every pair, and `==` is symmetric |
| TileDescriptions.Add | Assets/Scripts/TileDescription.cs:12-18 | `Add` fails exactly on an id already registered. Otherwise it returns the new kind, appends it to the list and stores it under its id, and the two collections stay in agreement |
| TileDescriptions.Initialise | Assets/Scripts/TileDescription.cs:20-23 | when all four static initialisers succeed, the two collections agree and hold four kinds |
| TileDescriptions.AddNew | Assets/Scripts/TileDescription.cs:12-18 | adding an unregistered id extends both collections by exactly that kind and keeps them well formed |
| TileDescriptions.BuiltinIdsDistinct | Assets/Scripts/TileDescription.cs:20-23 | the four built-in ids are pairwise distinct |
| TileDescriptions.InitialiseStages | Assets/Scripts/TileDescription.cs:20-23 | the four static initialisers run without a duplicate and build the registry of the four kinds, in order |
| TileDescriptions.BuiltinsContents | Assets/Scripts/TileDescription.cs:20-23 | the built-in registry has four entries in each collection; every stored kind is listed, and none is a bonus |
| TileDescriptions.InitialiseRegistersBuiltins | Assets/Scripts/TileDescription.cs:8-29 | initialisation never throws. It lists Circle, Triangle, Square and Hexagon in that order, none a bonus, each stored under its own id, four in each collection |
| TileDescriptions.DescriptionIdsDistinct | Assets/Scripts/TileDescription.cs:12-23 | the listed kinds have pairwise distinct ids |
| TileModels.Construct | Assets/Scripts/TileModel.cs:23-28 | the constructor takes the counter's value as id and advances the counter by one; the new tile has the given kind and position `(0,0)` |
| TileModels.Create | Assets/Scripts/TileModel.cs:12-21 | with a non-empty pool, `Create` pops the last disposed model, which keeps its id and position and takes the new kind; with an empty pool it constructs a new model with the next id at `(0,0)`, advances the counter and leaves the pool empty |
| TileModels.Dispose | Assets/Scripts/TileModel.cs:41-44 | `Dispose` pushes the model on top of the pool, which grows by exactly one |
| TileModels.DisposeThenCreate | Assets/Scripts/TileModel.cs:12-44 | a `Create` right after a `Dispose` returns the disposed model with the new kind and restores the pool |
| TileModels.ConstructAll | Assets/Scripts/TileModel.cs:23-28 | consecutive constructions take consecutive ids from the counter |
| TileModels.ConstructedIdsIncrease | Assets/Scripts/TileModel.cs:10-28 | from program start, constructed ids are 1, 2, 3, … and strictly increasing |
| MatchModels.HasMatch | Assets/Scripts/MatchModel.cs:7 | `HasMatch` holds iff the matched list is non-empty |
| MatchModels.DisposeAll | Assets/Scripts/MatchModel.cs:14 | disposing a list pushes exactly that list onto the pool, in order |
| MatchModels.Clear | Assets/Scripts/MatchModel.cs:12-18 | after `Clear` the three lists are empty and `HasMatch` is false; the pool gained exactly the matched tiles, in order |
| MatchModels.ClearIdempotent | Assets/Scripts/MatchModel.cs:12-18 | a second `Clear` changes nothing and disposes nothing |
| MatchModels.ClearIgnoresCreatedAndMoved | Assets/Scripts/MatchModel.cs:14-17 | the pool after `Clear` does not depend on the created and moved lists |
| MatchModels.ClearThenCreateReusesLast | Assets/Scripts/MatchModel.cs:14 | the first `Create` after a `Clear` reuses the last matched tile |
| SwapResults.Fail | Assets/Scripts/SwapResultModel.cs:8-9 | `Fail()` has no match and no tiles |
| SwapResults.Match | Assets/Scripts/SwapResultModel.cs:10 | `Match(ts)` has a match and exactly the tiles `ts`, and differs from `Fail()` |
| SwapResults.OutcomeShapes | Assets/Scripts/SwapResultModel.cs:8-20 | any outcome without a match is `Fail()` with no tiles, and any outcome with a match is `Match` of its tiles |
| GameState.VerticalMinYInFrame | Assets/Scripts/GameModel.cs:181-183 | on a frame that `IsVertical` accepts (three cells in one column), the `GetMinY` cell is one of the three cells |
| GameState.TilesFrame.GetMinY | Assets/Scripts/GameModel.cs:183 | the result keeps `Pos1`'s column and takes the lowest of the three rows |
| GameState.FrameFrom | Assets/Scripts/GameModel.cs:174-181 | the frame starts at the origin and advances by the direction twice; `IsVertical` holds for it exactly when the direction has no horizontal part |
| GameState.Get | Assets/Scripts/GameModel.cs:69-71 | the tile read while removing a cell is present exactly when the cell is occupied, and is the stored tile |
| GameState.CreateTile | Assets/Scripts/GameModel.cs:21-27 | the new tile takes the next id and sits at `pos` with the given kind, or with the drawn kind when none is given. Only `pos` changes on the board, and the invariant is kept |
| GameState.RemoveConsistent | Assets/Scripts/GameModel.cs:69-71 | emptying a cell keeps the board invariant and never adds tiles |
| GameState.CreateTileIdsIncrease | Assets/Scripts/GameModel.cs:13-27 | ids from consecutive `CreateTile` calls strictly increase, starting at 1 |
| MatchDetection.AddCheckTile | Assets/Scripts/GameModel.cs:136-145 | six frames are appended after the existing ones: the three horizontal windows through the cell, left to right, then the three vertical ones, top to bottom |
| MatchDetection.IsMatch | Assets/Scripts/GameModel.cs:147-157 | `IsMatch` is true iff all three cells are occupied and their kinds have equal ids |
| MatchDetection.ScanFrames | Assets/Scripts/GameModel.cs:122-130 | the loop with `break` returns the first matching frame, and nothing iff no frame matches |
| MatchDetection.FindMatch | Assets/Scripts/GameModel.cs:118-134 | `FindMatch` empties the pending list and always returns the `default` frame. It reports a match iff a pending frame or one of the six windows through the cell matches |
| MatchDetection.FirstMatchingWindow | Assets/Scripts/GameModel.cs:136-157 | the first of the six windows that matches, in `AddCheckTile` order. It returns nothing exactly when all windows are clear |
| MatchDetection.ScanAgreesWithFirstMatchingWindow | Assets/Scripts/GameModel.cs:120-130 | the source's loop over the list `AddCheckTile` builds stops at the window `FirstMatchingWindow` picks |
| MatchDetection.ScanSix | Assets/Scripts/GameModel.cs:122-130 | scanning six frames unrolls into an if-chain over them in order |
| MatchDetection.FindMatchIntended | Assets/Scripts/GameModel.cs:118-130 | with the reset at line 132 removed, the out frame is the matching window the scan stopped at |
| MatchDetection.NoThreeInRowIffWindowsClear | Assets/Scripts/GameModel.cs:136-145 | a board has no three in a row iff no occupied cell has a matching window, so the six windows cover every line through a cell |
| MatchDetection.PlacementKeepsNoThreeInRow | Assets/Scripts/GameModel.cs:46-51 | placing a tile whose six windows are clear keeps a board free of three in a row |
| MatchDetection.MatchIgnoresIdentity | Assets/Scripts/GameModel.cs:147-157 | whether a placement matches depends only on the placed tile's kind |
| MatchDetection.BackwardWindowsOnly | Assets/Scripts/GameModel.cs:136-157 | with the right and upper neighbours empty, a kind is rejected only if it equals the left or the lower neighbour's kind |
| SwapEngine.SwapModels | Assets/Scripts/GameModel.cs:111-116 | the swap writes only the two affected keys, puts each tile under the other's cell with its position updated, and keeps keys equal to positions and ids distinct |
| SwapEngine.SwapModelsConsistent | Assets/Scripts/GameModel.cs:111-116 | swapping keeps the board invariant |
| SwapEngine.SwapModelsInvolution | Assets/Scripts/GameModel.cs:83 | swapping the two updated tiles back restores the board exactly, as the rollback relies on |
| SwapEngine.ShiftInto | Assets/Scripts/GameModel.cs:95-98 | one collapse step empties the probed cell and writes its tile, repositioned, into the hole; every other cell is unchanged |
| SwapEngine.ShiftIntoConsistent | Assets/Scripts/GameModel.cs:95-98 | one collapse step keeps keys equal to positions, ids distinct, and ids issued |
| SwapEngine.ShiftIntoNoGrowth | Assets/Scripts/GameModel.cs:95-98 | one collapse step never adds a tile |
| SwapEngine.ShiftIntoGap | Assets/Scripts/GameModel.cs:92-99 | with the whole gap under the probed cell empty, a step keeps the tile count and leaves an empty gap one row higher |
| SwapEngine.Collapse | Assets/Scripts/GameModel.cs:92-106 | the loop ends; the final hole stays in the column and lies between the start row and `max(start row, Max.y)`. What the loop moves is stated by `CollapseMovesDown` and `CollapseStopsAtGap` |
| SwapEngine.MoveColumnDown | Assets/Scripts/GameModel.cs:88-109 | the final hole stays in the column and between the start row and `max(start row, Max.y)`; only the board changes. Every row from the hole up to the final hole holds the tile from `step` rows above it (3 after a vertical match, else 1), moved down; a final hole below `Max.y` has an empty probed cell |
| SwapEngine.CollapseStops | Assets/Scripts/GameModel.cs:92-105 | the loop stops at once when the hole has reached `Max.y` or the probed cell is empty |
| SwapEngine.CollapseStep | Assets/Scripts/GameModel.cs:92-99 | otherwise one iteration moves the probed tile and continues one row up |
| SwapEngine.CollapseStopsAtGap | Assets/Scripts/GameModel.cs:92-105 | a collapse that ends below `Max.y` ends because the cell `step` rows above the final hole is empty |
| SwapEngine.CollapseMovesDown | Assets/Scripts/GameModel.cs:92-99 | every row from the starting hole up to the final hole receives the tile that sat `step` rows above it, with its position updated |
| SwapEngine.CollapseFrame | Assets/Scripts/GameModel.cs:88-109 | the collapse touches only the hole's column, from the hole upward |
| SwapEngine.CollapseConsistent | Assets/Scripts/GameModel.cs:88-109 | the collapse keeps keys equal to positions, ids distinct, and ids issued |
| SwapEngine.CollapseNoGrowth | Assets/Scripts/GameModel.cs:88-109 | the collapse never adds a tile |
| SwapEngine.CollapseKeepsCount | Assets/Scripts/GameModel.cs:88-109 | with the step-sized gap at the hole empty, the collapse keeps the tile count |
| SwapEngine.ResolveMatch | Assets/Scripts/GameModel.cs:69-79 | resolving a frame reports a match with three entries and changes only the board |
| SwapEngine.ResolveMatchBoard | Assets/Scripts/GameModel.cs:69-76 | the resolved board is the frame's cells removed, then collapsed from the lowest cell when the frame is vertical |
| SwapEngine.ResolveMatchConsistent | Assets/Scripts/GameModel.cs:69-76 | resolving any frame keeps the board invariant |
| SwapEngine.ResolveMatchNoGrowth | Assets/Scripts/GameModel.cs:69-76 | resolving any frame never adds tiles |
| SwapEngine.ResolveDefaultFrame | Assets/Scripts/GameModel.cs:66-79 | the `default` frame reports the tile at `(0,0)` (or null) and then two nulls; nothing outside column 0 from row 0 upward changes |
| SwapEngine.Swap | Assets/Scripts/GameModel.cs:63-86 | `Swap` as written reports a match iff the exchange completes a line at either cell or a pending frame. It then reports the tile at `(0,0)` and two nulls, changes only column 0, and leaves the board that removing `(0,0)` from the swapped board and collapsing column 0 from there with the 3-row step gives. Otherwise it restores the board, empties the pending list and returns `Fail()` |
| SwapEngine.SwapConsistent | Assets/Scripts/GameModel.cs:63-86 | a swap, kept or rolled back, keeps the board invariant and never adds tiles |
| SwapEngine.SwapKeepsBoardAwayFromOrigin | Assets/Scripts/GameModel.cs:63-86 | as written, a swap on a board with no tile in column 0 from row 0 upward removes no tile |
| SwapEngine.WindowCellsDistinct | Assets/Scripts/GameModel.cs:136-145 | the three cells of a window are pairwise distinct |
| SwapEngine.ResolveWindowTiles | Assets/Scripts/GameModel.cs:69-79 | resolving a matching window reports its three tiles in frame order |
| SwapEngine.VerticalWindowCells | Assets/Scripts/GameModel.cs:181-183 | a vertical window covers exactly the three cells upward from its lowest one |
| SwapEngine.RemoveThreeCells | Assets/Scripts/GameModel.cs:69-71 | removing three distinct occupied cells takes exactly three tiles off |
| SwapEngine.RemoveWindowCells | Assets/Scripts/GameModel.cs:69-75 | removing a window takes three tiles off and, for a vertical window, leaves the three-row gap empty |
| SwapEngine.ResolveWindowCount | Assets/Scripts/GameModel.cs:69-76 | resolving a matching window, collapse included, leaves exactly three fewer tiles |
| SwapEngine.ResolveWindow | Assets/Scripts/GameModel.cs:67-79 | resolving a matching window reports three present tiles of one kind and removes exactly three tiles |
| SwapEngine.SwapIntended | Assets/Scripts/GameModel.cs:63-86 | the corrected swap reports a match under the same condition as `Swap`, and rolls back and fails otherwise |
| SwapEngine.SwapIntendedRemovesMatch | Assets/Scripts/GameModel.cs:63-86 | a matching corrected swap removes three tiles of one kind, leaving exactly three fewer tiles |
| MapCreation.Exchange | Assets/Scripts/GameModel.cs:164 | the tuple swap exchanges two items and keeps the rest, so the items are rearranged |
| MapCreation.ShuffleFromPermutes | Assets/Scripts/GameModel.cs:159-166 | every shuffle step is an exchange, so the result is a permutation of the input |
| MapCreation.Shuffle | Assets/Scripts/GameModel.cs:159-166 | `Shuffle` returns a permutation of its input |
| MapCreation.TryKind | Assets/Scripts/GameModel.cs:46-47 | trying a kind writes a new tile at the cell and empties the pending list. With nothing pending, the kind is kept iff it completes no window |
| MapCreation.RejectsOverwritten | Assets/Scripts/GameModel.cs:46-47 | whether a kind completes a window does not depend on the tile the cell held before |
| MapCreation.PlaceStep | Assets/Scripts/GameModel.cs:43-51 | one more pass of the inner loop keeps its invariant |
| MapCreation.PlaceDone | Assets/Scripts/GameModel.cs:43-57 | when the inner loop ends, the kept kind is the first acceptable one, or the last one tried when none is acceptable |
| MapCreation.PlaceCell | Assets/Scripts/GameModel.cs:41-57 | per cell, only that cell changes. With nothing pending, a kind is found iff some shuffled kind completes no window, and the kept kind is the first such one; otherwise the last kind tried stays |
| MapCreation.SomeKindAccepted | Assets/Scripts/GameModel.cs:40-57 | of a shuffle of the four built-in kinds, at most two are rejected next to empty right and upper neighbours, so one is accepted |
| MapCreation.ColumnStep | Assets/Scripts/GameModel.cs:38-58 | one iteration adds exactly its cell to the occupied set; on a board that started empty it always finds a kind and keeps the board free of three in a row |
| MapCreation.VisitCell | Assets/Scripts/GameModel.cs:40-57 | one iteration keeps the kinds a permutation and occupies its cell. With nothing pending, it reports the cell exactly when every shuffled kind would complete a window there |
| MapCreation.FillColumn | Assets/Scripts/GameModel.cs:38-59 | one column of the grid is filled, in row order, with the invariants of the outer loop kept |
| MapCreation.CellCompletesRowOrColumnLast | Assets/Scripts/GameModel.cs:36-42 | in x-major order, the cells right of and above the next cell are still empty |
| MapCreation.OccupiedStep | Assets/Scripts/GameModel.cs:42-46 | placing a cell advances the occupied set by exactly that cell and leaves tiles outside the grid alone |
| MapCreation.ColumnDone | Assets/Scripts/GameModel.cs:36-38 | a finished column counts as visited up to the start of the next |
| MapCreation.CreateMap | Assets/Scripts/GameModel.cs:29-61 | `Min`, `Max` and `Center` come from the truncated half sizes; the occupied cells are the old ones plus the grid, and tiles off the grid are kept. A board started empty has no anomaly and no three in a row. The invariant is kept |
| MapCreation.GridWithinBoundsIffEven | Assets/Scripts/GameModel.cs:31-33 | the filled cells lie within `[Min, Max]` iff both dimensions are even |
| SwapExamples.ExampleConsistent | Assets/Scripts/GameModel.cs:111-116 | the example board satisfies the board invariant and holds the two tiles to swap |
| SwapExamples.ExampleMakesMatch | Assets/Scripts/GameModel.cs:63-67 | on the example, the swap completes a column |
| SwapExamples.SwapResetsFrameWitness | Assets/Scripts/GameModel.cs:126-132 | as written, the example swap reports a match whose three tiles are all null, and removes no tile |
| SwapExamples.SwapIntendedClearsExample | Assets/Scripts/GameModel.cs:63-79 | on the same board the corrected swap removes the three Circles, leaving one tile |
| SwapExamples.CollapseLosesTileWithoutGap | Assets/Scripts/GameModel.cs:92-99 | with only the hole empty and a probe three rows up, the collapse overwrites a tile, so the tile count drops |

## Left out

- Assets/Scripts/GameController.cs, TileController.cs, TilePoolController.cs, Animation.cs, Startup.cs, MapController.cs and Settings.cs are not part of this model. They hold Unity orchestration, input, view pooling, animation and configuration, with no board logic.
- `UnityEngine.Random.Range` is the oracle `draw`, each value in `[0, 4)`. `CreateTile`'s own draw is the `roll` argument.
- `Debug.LogError` in `CreateMap` becomes the returned `anomalies` list of cells.
- The `_handleSwipe` re-entrancy gate and the async swipe flow are not modelled; the engine is treated as single-threaded.
- Ids and counters are unbounded integers. The 32-bit wrap-around of `_seed++` and `_tileIds++` would need over two billion tiles.
- `TileDescription.ToString` and `TileModel.ToString` only format text for logging, so they are not modelled.
- `TileDescriptionIds.GetHashCode` takes the runtime's string hash as a parameter, because that hash is not visible here.
- `SwapResults.Fail`: the shared `FailModel` instance is a single value. Reference identity is not modelled, but every call yields the same value.
- `SwapResultModel` is declared twice, at GameModel.cs:187-202 and in SwapResultModel.cs, with the same meaning. It is modelled once.
- GameModel.cs:24 calls a two-argument `TileModel` constructor that TileModel.cs does not declare. The model takes the id from `GameModel._tileIds` and does not touch the `TileModel` pool.
- `MatchModel` is modelled on its own; no `GameModel` operation in this code fills it.
- `SwapEngine.Swap` and `SwapEngine.SwapIntended` require both tiles to sit on the board under their own positions. The engine assumes both handles are live tiles and does not check it. GameController.cs:69 does not ensure this for the swiped tile: it takes that model from `_tileToModel`, which is filled once at lines 37-43 and not updated after a match. With such a stale model `a`, `SwapModels` writes `b` into `a`'s old cell, overwriting whatever tile is there, and re-inserts `a` at `b`'s cell. The model does not cover that case.
- `SwapEngine.CollapseKeepsCount` requires the whole step-sized gap above the hole to be empty, not just the hole. With a 3-row step and only the hole empty, a tile can be overwritten and lost (`SwapExamples.CollapseLosesTileWithoutGap`). The as-written `Swap` reaches that case: on a match it collapses column 0 from `(0,0)` with the 3-row step (`SwapEngine.Swap`).
- `SwapEngine.SwapIntendedRemovesMatch` requires the pending list to be empty, which holds between any two calls because every `FindMatch` empties it.
- `MapCreation.CreateMap` proves no anomaly and no three in a row only for a board that starts empty with nothing pending, which is how `GameController` calls it. For other boards it proves only the bounds, the occupied cells and the invariant. The per-cell link between a reported cell and "no kind accepted" is stated by `MapCreation.VisitCell`, but it is not lifted to the whole anomaly list.
- Refill, cascades and a possible-move search do not exist in this code and are not modelled.

## Findings

| source | as written | input that shows it | evidently intended | confidence | as-written member | corrected member |
|---|---|---|---|---|---|---|
| Assets/Scripts/GameModel.cs:126-132 | `FindMatch` stores the matching frame, then sets the out frame to `default` unconditionally. `Swap` therefore removes cell `(0,0)` three times, reports that tile (or null) and two nulls, and collapses column 0 | `SwapExamples.Example`: column 3 holds Circle, Circle, Triangle from row 0 up, with a Circle at `(4,2)`; swap the Triangle at `(3,2)` with that Circle | the out frame is the matching frame, so the swap removes the three Circles of column 3 | high, not executed | SwapExamples.SwapResetsFrameWitness | SwapEngine.SwapIntended |

The corrected swap uses `MatchDetection.FindMatchIntended`.
`SwapEngine.SwapIntendedRemovesMatch` proves that every matching corrected
swap removes three tiles of one kind. `SwapExamples.SwapIntendedClearsExample`
shows it on the example board.
