# Match-3 board core, modelled in Dafny

This project models the simulation core of a Unity match-3 game. It proves properties of that model.

The board is a `width × height` grid of element types, where `None` is an empty cell. Around it sit:

- **Match finder:** a breadth-first flood fill collects each 4-connected region of one kind. A run-length test keeps a region, whole, when some member has three region cells in a row or in a column.
- **Gravity:** repeated passes drop every unblocked tile one row. Cells locked by an animation (the "busy" set) are skipped.
- **Board controller:** it builds a level with one empty padding column on each side. It accepts or refuses player moves. It runs the normalisation loop: gravity, then matches, then clearing, repeated while anything was destroyed. When the board is empty it declares a win and loads the next level.
- **Persistence:**
  - row-major snapshots of the board and the current level index, kept in a key-value store;
  - the level sequence, which wraps around the configured list;
  - the level inspector's array resize;
  - the kind-to-prefab table of the view factory.

The model follows the source's own form:

- **Imperative code becomes imperative Dafny.**
  - The grid is an `array2<ElementType>`.
  - The board, save, level and editor services are classes whose methods update their fields.
  - Each method with a loop carries invariants and is proved against a specification function on values: `Matches`, `Settle`, `Normalize`, `Flatten`, `Resize`, `Table`. `Snapshot(a)` reads an array as a column-major `seq<seq<ElementType>>`, indexed `g[x][y]` like the C# `[x, y]`.
- **Awaited listener calls become a ghost event log.** The log is a sequence of `Moved`, `Destroyed`, `LevelLoaded` and `Won` events. The board's contracts state the log exactly.
- **The key-value store is a map field.** `PlayerPrefs` is modelled as a `map<string, Pref>` field of `SaveService`.

Two facts about the code bear on the model:

- `TryMoveAsync` indexes `from` without a bounds check (Assets/Scripts/BoardService.cs:154). The model reads a cell outside the grid as empty, so it refuses such a move and changes nothing (see `Board.BoardService.TryMove` under "Left out").
- A move may target a padding column, because `IsInside` uses the padded width (Assets/Scripts/BoardService.cs:140-143). The model therefore assumes nothing about padding columns after a move.

## Model

| member | source | states |
|---|---|---|
| `Levels.IndexInBounds` | Assets/Scripts/Configs/LevelData.cs:10-13 | an in-range (x, y) has a row-major index inside a `width * height` array |
| `Levels.IndexInjective` | Assets/Scripts/Configs/LevelData.cs:12 | distinct in-range coordinates have distinct indices |
| `Levels.IndexSurjective` | Assets/Scripts/Configs/LevelData.cs:12 | every index `i < width * height` is the index of `(i % width, i / width)`, which is in range |
| `Levels.IndexDecode` | Assets/Scripts/Configs/LevelData.cs:12 | dividing an index by the width gives back the row and column it came from |
| `Levels.GetElement` | Assets/Scripts/Configs/LevelData.cs:10-13 | cell (x, y) is slot `y * width + x` of the row-major array; that slot must exist, as the C# access faults otherwise, so the cell is one of the stored elements |
| `Grid.Inside` | Assets/Scripts/MatchFinder.cs:104-107 | a position is inside a w-by-h grid exactly when it is one of that grid's cells |
| `MatchFinder.Component` | Assets/Scripts/MatchFinder.cs:75-101 | every cell of a region lies inside the grid |
| `MatchFinder.ReachableSymmetric` | Assets/Scripts/MatchFinder.cs:91-98 | same-kind 4-neighbour reachability is symmetric |
| `MatchFinder.ReachableTransitive` | Assets/Scripts/MatchFinder.cs:91-98 | same-kind 4-neighbour reachability is transitive |
| `MatchFinder.ComponentOfMember` | Assets/Scripts/MatchFinder.cs:75-101 | the region grown from any member of a region is that same region, so regions partition the tiles and scan order does not matter |
| `MatchFinder.ClosedHoldsComponent` | Assets/Scripts/MatchFinder.cs:86-100 | a set holding the start and closed under same-kind neighbour steps contains the whole region (the flood fill misses nothing) |
| `MatchFinder.RunNeedsThree` | Assets/Scripts/MatchFinder.cs:33 | a set holding a run of three has at least 3 cells, so the size guard never rejects a region with a line |
| `MatchFinder.Walk` | Assets/Scripts/MatchFinder.cs:39-51 | the counting loop returns n such that the n cells after p in the direction are in the set and the next one is not |
| `MatchFinder.RunCount` | Assets/Scripts/MatchFinder.cs:37-69 | the two counts through p reach 3 iff the set has three consecutive cells through p on that axis |
| `MatchFinder.HasLine` | Assets/Scripts/MatchFinder.cs:31-73 | true iff the region has at least 3 cells and three consecutive members in a row or a column |
| `MatchFinder.GetRegion` | Assets/Scripts/MatchFinder.cs:75-102 | the result has no duplicate and holds exactly the 4-connected same-kind region of the start cell |
| `MatchFinder.EnqueueNeighbours` | Assets/Scripts/MatchFinder.cs:91-99 | after the four neighbour checks, every same-kind neighbour of p is visited, the queue keeps its order, and only cells of the region are added |
| `MatchFinder.EnqueueIfNew` | Assets/Scripts/MatchFinder.cs:93-98 | a wanted neighbour ends up visited and enqueued; the visited set only grows, and only with region cells |
| `MatchFinder.AddRegion` | Assets/Scripts/MatchFinder.cs:18-24 | marking a new region adds it whole to the qualifying cells iff it has a line, and nothing else |
| `MatchFinder.AllTilesMarked` | Assets/Scripts/MatchFinder.cs:12-28 | once every tile is marked, the collected cells are exactly the matches |
| `MatchFinder.MarkRegion` | Assets/Scripts/MatchFinder.cs:19 | the `visited` array afterwards mirrors the marked set plus the region |
| `MatchFinder.CoverRegion` | Assets/Scripts/MatchFinder.cs:16-24 | visiting an unmarked tile marks its region and adds it to the result exactly when it has a line |
| `MatchFinder.VisitCell` | Assets/Scripts/MatchFinder.cs:16-24 | one scan step keeps the scan invariant and leaves the cell marked when it holds a tile |
| `MatchFinder.FindMatches` | Assets/Scripts/MatchFinder.cs:7-29 | the result is the union of the whole regions that have a line; each cell is inside and non-empty; the grid is not modified |
| `MatchFinder.MatchedRegionSize` | Assets/Scripts/MatchFinder.cs:33 | the region of a matched cell has at least 3 cells |
| `MatchFinder.MatchesWholeRegion` | Assets/Scripts/MatchFinder.cs:21-24 | inclusion is all-or-nothing: a cell of a matched cell's region is matched |
| `MatchFinder.LineOfThreeMatched` | Assets/Scripts/MatchFinder.cs:37-69 | three same-kind tiles in a straight row or column are all matched |
| `MatchFinder.SideTileMatched` | Assets/Scripts/MatchFinder.cs:21-24 | a tile touching a vertical line of three, but in no line itself, is destroyed with it |
| `Gravity.RowFallingSpec` | Assets/Scripts/GravityService.cs:25-34 | the row scan lists exactly the candidates of row y left of x, each once |
| `Gravity.FallingRowsSpec` | Assets/Scripts/GravityService.cs:23-35 | the scan of rows below y lists exactly their candidates, each once |
| `Gravity.FallingSpec` | Assets/Scripts/GravityService.cs:23-35 | a cell is listed iff y ≥ 1, it holds a tile, the cell below is empty, and neither is busy; no cell is listed twice |
| `Gravity.DropFacts` | Assets/Scripts/GravityService.cs:44-46 | one drop keeps the multiset of tiles and lowers the height measure by one |
| `Gravity.ApplyMovesSpec` | Assets/Scripts/GravityService.cs:42-47 | applying the candidates one after another equals moving them all at once; it keeps every tile and lowers the height by their number |
| `Gravity.MovesOf` | Assets/Scripts/GravityService.cs:51 | the reported batch pairs each candidate with the cell below it, in scan order |
| `Gravity.PassSpec` | Assets/Scripts/GravityService.cs:42-47 | after a pass every candidate's tile is one row lower in its column and its cell empty; all other cells are unchanged; tile counts are kept |
| `Gravity.PassLowers` | Assets/Scripts/GravityService.cs:37-47 | a pass with a candidate strictly lowers the height measure, so the loop terminates |
| `Gravity.PassKeepsBusy` | Assets/Scripts/GravityService.cs:29-30 | a busy cell is never the source or destination of a move |
| `Gravity.SettleKeeps` | Assets/Scripts/GravityService.cs:17-80 | repeated passes keep every tile, never touch busy cells, and never raise the height |
| `Gravity.SettleStable` | Assets/Scripts/GravityService.cs:17-37 | when the passes stop, no cell is a candidate |
| `Gravity.SettleChanges` | Assets/Scripts/GravityService.cs:14-20 | gravity leaves the grid as it is iff no cell is a candidate |
| `Gravity.SettleIdempotent` | Assets/Scripts/GravityService.cs:17-37 | on a settled grid gravity changes nothing and reports no batch |
| `Gravity.SettleCompact` | Assets/Scripts/GravityService.cs:23-35 | with no busy cell, the tiles of each column end stacked from row 0 without gaps |
| `Gravity.FindFalling` | Assets/Scripts/GravityService.cs:21-35 | the scan loop returns exactly the candidate list in row-major order |
| `Gravity.ScanRow` | Assets/Scripts/GravityService.cs:25-34 | the inner loop returns exactly row y's candidates |
| `Gravity.MoveDown` | Assets/Scripts/GravityService.cs:44-46 | the tile is copied below and its cell emptied |
| `Gravity.DropAll` | Assets/Scripts/GravityService.cs:39-52 | the grid becomes the pass result; the batch is the candidate moves; the busy set gains exactly their endpoints, none of them busy before |
| `Gravity.Release` | Assets/Scripts/GravityService.cs:57-63 | removing the endpoints gives back the busy set from before the pass |
| `Gravity.AnyPending` | Assets/Scripts/GravityService.cs:71-73 | true iff some busy cell above row 0 holds a tile over an empty cell |
| `Gravity.ProgressDone` | Assets/Scripts/GravityService.cs:17-82 | when no candidate remains, the grid is the settled grid, the batches are its moves, and `changed` is true iff the grid changed |
| `Gravity.GravityPass` | Assets/Scripts/GravityService.cs:19-79 | one iteration keeps the busy set, lowers the height when tiles moved, and otherwise reports whether a busy tile is waiting to fall |
| `Gravity.ApplyGravity` | Assets/Scripts/GravityService.cs:10-83 | the grid ends settled, the batches are the moves of each pass, the result is true iff the grid changed, the busy set is as before, and a still-pending busy tile is reported |
| `BoardRules.PaddedSpec` | Assets/Scripts/BoardService.cs:85-95 | for a level with non-negative dimensions and at least `width * height` cells, the built board is `width + 2` by `height`, its outer columns are empty, and level cell (x, y) sits at (x + 1, y) |
| `BoardRules.Unflatten` | Assets/Scripts/BoardService.cs:60-66 | the restored board has the saved width and height |
| `BoardRules.MoveBatch` | Assets/Scripts/BoardService.cs:164-168 | a move reports (from, to), followed by (to, from) iff the target cell held a tile |
| `BoardRules.SwappedSpec` | Assets/Scripts/BoardService.cs:172-173 | a move exchanges the kinds at from and to, changes no other cell, and keeps every tile |
| `BoardRules.ClearCount` | Assets/Scripts/BoardService.cs:230-234 | clearing n matched tiles removes exactly n tiles |
| `BoardRules.Normalize` | Assets/Scripts/BoardService.cs:197-240 | the loop's final board and last saved board keep the board's dimensions |
| `BoardRules.NormalizeTerminates` | Assets/Scripts/BoardService.cs:217-238 | a pass that destroys something strictly lowers the tile count, so the loop ends |
| `BoardRules.NormalizeStable` | Assets/Scripts/BoardService.cs:197-240 | the loop ends on a board with no match and no falling candidate |
| `BoardRules.NormalizeCount` | Assets/Scripts/BoardService.cs:197-240 | the loop never adds a tile, and it saves the board iff it removed some tile |
| `BoardRules.NormalizeIdempotent` | Assets/Scripts/BoardService.cs:197-240 | normalising a normalised board changes nothing and reports no event |
| `BoardRules.NormalizeNormal` | Assets/Scripts/BoardService.cs:201-217 | on a board where nothing falls or matches, the loop makes one quiet pass |
| `Persistence.FlattenShape` | Assets/Scripts/SaveService.cs:24-26 | the snapshot records the given width and height and holds exactly `width * height` cells |
| `Persistence.SaveRoundTrip` | Assets/Scripts/SaveService.cs:28-34 | reading the snapshot back with GetElement(x, y) gives the board's cell (x, y) |
| `Persistence.LevelIndexRoundTrip` | Assets/Scripts/SaveService.cs:15-51 | LoadLevelIndex returns the value last passed to SaveLevel |
| `Persistence.ClearKeepsLevelIndex` | Assets/Scripts/SaveService.cs:67-71 | ClearBoard does not change the saved level index |
| `Persistence.SaveService.SaveLevel` | Assets/Scripts/SaveService.cs:15-19 | only the level key changes, to the given index |
| `Persistence.SaveService.LoadLevelIndex` | Assets/Scripts/SaveService.cs:48-51 | the saved level index, and 0 when none was saved |
| `Persistence.SaveService.HasSavedBoard` | Assets/Scripts/SaveService.cs:53-56 | true exactly when the board key is stored |
| `Persistence.SaveService.SaveBoard` | Assets/Scripts/SaveService.cs:21-46 | only the board key changes, to the row-major snapshot of the grid; the grid is not modified |
| `Persistence.SaveService.LoadBoard` | Assets/Scripts/SaveService.cs:58-65 | the loaded board has exactly `width * height` cells |
| `Persistence.SaveService.ClearBoard` | Assets/Scripts/SaveService.cs:67-71 | only the board key is removed; afterwards there is no saved board and the level index is unchanged |
| `Progression.LevelAt` | Assets/Scripts/LevelService.cs:39-42 | the level for any non-negative index is one of the configured levels |
| `Progression.LevelAtWraps` | Assets/Scripts/LevelService.cs:39-42 | index i and index i + count give the same level |
| `Progression.LevelAtFirstCycle` | Assets/Scripts/LevelService.cs:39-42 | during the first cycle, index i gives the i-th level |
| `Progression.LevelService.constructor` | Assets/Scripts/LevelService.cs:9-13 | keeps the level list and the save service, and starts at level index 0 |
| `Progression.LevelService.LoadInitialLevel` | Assets/Scripts/LevelService.cs:15-19 | the current index becomes the saved index, and its level is returned |
| `Progression.LevelService.GetNextLevel` | Assets/Scripts/LevelService.cs:21-27 | the index goes up by one and is saved, the saved board is cleared, and the new index's level is returned |
| `Progression.LevelService.GetCurrentLevel` | Assets/Scripts/LevelService.cs:29-32 | returns a configured level without changing any state |
| `Progression.LevelService.RestartLevel` | Assets/Scripts/LevelService.cs:34-37 | only the saved board is cleared; the index is unchanged |
| `Board.NormalizeUnfold` | Assets/Scripts/BoardService.cs:197-240 | the loop is one pass followed, when that pass destroyed something, by the loop on the cleared board |
| `Board.PassStep` | Assets/Scripts/BoardService.cs:201-238 | after one pass, the board, log and store either still lead to the loop's outcome or have reached it |
| `Board.BuildBoard` | Assets/Scripts/BoardService.cs:85-95 | the fill loops build exactly the padded board |
| `Board.RestoreBoard` | Assets/Scripts/BoardService.cs:60-66 | the copy loops build exactly the board stored in the snapshot |
| `Board.RestoreRoundTrip` | Assets/Scripts/BoardService.cs:57-66 | restoring a saved board gives back exactly the board that was saved |
| `Board.BoardService.constructor` | Assets/Scripts/BoardService.cs:37-49 | the service starts with no board, no busy cell and neither flag set |
| `Board.BoardService.GetElement` | Assets/Scripts/BoardService.cs:137 | returns the board's cell (x, y) |
| `Board.BoardService.IsInside` | Assets/Scripts/BoardService.cs:140-143 | a position is inside exactly when a board is loaded and the position is a cell of the padded board |
| `Board.BoardService.IsBusy` | Assets/Scripts/BoardService.cs:138 | a cell is busy exactly when an animation in flight holds it |
| `Board.BoardService.LoadLevel` | Assets/Scripts/BoardService.cs:79-102 | the board becomes the padded level, the busy set is empty, normalisation is off, the board is saved, and LevelLoaded is reported |
| `Board.BoardService.LoadInitialState` | Assets/Scripts/BoardService.cs:53-77 | loads the saved level index; restores and normalises the saved board when there is one, and otherwise loads the level fresh, with normalisation off and the pending-normalisation flag kept |
| `Board.BoardService.RestoreSaved` | Assets/Scripts/BoardService.cs:57-72 | the saved board is restored, LevelLoaded is reported, and the board is normalised |
| `Board.BoardService.RestartLevel` | Assets/Scripts/BoardService.cs:124-129 | clears the saved board, then loads the current level fresh, with normalisation off and the pending-normalisation flag kept |
| `Board.BoardService.NextLevel` | Assets/Scripts/BoardService.cs:131-135 | advances and saves the level index, clears the old board, and loads and saves the next level |
| `Board.BoardService.TryMove` | Assets/Scripts/BoardService.cs:146-185 | a move is refused, with nothing changed, while normalising, when the target is outside, when either cell is busy, or when the source is empty; otherwise the two cells are exchanged, saved and reported, and the board is normalised |
| `Board.BoardService.Exchange` | Assets/Scripts/BoardService.cs:157-178 | an accepted move exchanges the cells, saves and reports them, and then normalises the board |
| `Board.BoardService.MoveCells` | Assets/Scripts/BoardService.cs:159-177 | the two cells are exchanged, the board saved and the move batch reported; neither cell is left busy |
| `Board.BoardService.StartNormalization` | Assets/Scripts/BoardService.cs:187-252 | when not already running and with no busy cell, the board ends as the loop's outcome, every event is reported, each destroying pass's board is saved, and the next level loads if the board is empty; otherwise only a further pass is requested |
| `Board.BoardService.NormalizeLoop` | Assets/Scripts/BoardService.cs:197-240 | the loop reaches the outcome of `Normalize`, with its events and its last save, or defers, unchanged, while a cell is busy |
| `Board.BoardService.Advance` | Assets/Scripts/BoardService.cs:201-239 | one iteration either lowers the tile count and keeps the loop on track, or ends with the loop's outcome |
| `Board.BoardService.NormalizePass` | Assets/Scripts/BoardService.cs:208-239 | gravity, then matching, then clearing and saving when something matched, each reported in order |
| `Board.BoardService.DestroyCells` | Assets/Scripts/BoardService.cs:217-238 | every matched cell becomes empty and leaves the busy set; the destruction is reported and the board saved |
| `Board.BoardService.ClearCells` | Assets/Scripts/BoardService.cs:230-234 | the loop empties exactly the given cells and removes them from the busy set |
| `Board.BoardService.IsCleared` | Assets/Scripts/BoardService.cs:257-259 | true iff every cell of the board is empty |
| `Board.BoardService.CheckWin` | Assets/Scripts/BoardService.cs:254-279 | on an empty board, Won is reported and the next level is loaded; otherwise nothing changes |
| `LevelEditor.Resize` | Assets/Scripts/Editor/LevelDataEditor.cs:65-95 | the resized array has exactly `newWidth * newHeight` cells |
| `LevelEditor.ResizeAt` | Assets/Scripts/Editor/LevelDataEditor.cs:76-92 | new cell (x, y) is the old cell inside the old rectangle; when the old array is too short to hold that old cell, it is the stale slot at the new index (the old array's entry there, or the value Unity gives an added slot); and `None` outside the old rectangle |
| `LevelEditor.ResizeKeepsOld` | Assets/Scripts/Editor/LevelDataEditor.cs:80-87 | with a consistent old array, a cell with x < oldWidth and y < oldHeight keeps the value at `y * oldWidth + x` |
| `LevelEditor.ResizeClearsNew` | Assets/Scripts/Editor/LevelDataEditor.cs:89-92 | a cell outside the old rectangle becomes `None` |
| `LevelEditor.ResizeIdentity` | Assets/Scripts/Editor/LevelDataEditor.cs:76-87 | resizing a consistent array to its own dimensions gives it back |
| `LevelEditor.ResizeGrowShrink` | Assets/Scripts/Editor/LevelDataEditor.cs:80-92 | growing and then shrinking back to the original dimensions restores the original array |
| `LevelEditor.Clamp` | Assets/Scripts/Editor/LevelDataEditor.cs:31-32 | a negative entered dimension becomes 0, and a non-negative one is kept |
| `LevelEditor.InspectWellFormed` | Assets/Scripts/Editor/LevelDataEditor.cs:28-39 | with non-negative entries, the stored dimensions are the entered ones and the array size matches them |
| `LevelEditor.InspectKeepsNegativeWidth` | Assets/Scripts/Editor/LevelDataEditor.cs:31-39 | as written, entering width -3 on an empty 0-wide level stores -3 |
| `LevelEditor.InspectClampedWellFormed` | Assets/Scripts/Editor/LevelDataEditor.cs:31-39 | writing the clamped dimensions back always leaves a consistent level, and changes nothing when no resize is needed |
| `LevelEditor.LevelDataEditor.OnInspectorGUI` | Assets/Scripts/Editor/LevelDataEditor.cs:18-39 | one inspector update leaves the level as `Inspect` describes |
| `LevelEditor.LevelDataEditor.ResizeArray` | Assets/Scripts/Editor/LevelDataEditor.cs:65-95 | the copy, resize and row-major write loops produce exactly `Resize` of the old array |
| `LevelEditor.LevelDataEditor.WriteRow` | Assets/Scripts/Editor/LevelDataEditor.cs:78-93 | the inner loop writes row y of the resized array and leaves later cells untouched |
| `ViewFactory.FirstPrefabSpec` | Assets/Scripts/ElementViewFactory.cs:10-14 | the first pair of a kind decides its prefab, and the lookup misses iff no pair has the kind |
| `ViewFactory.TableFirst` | Assets/Scripts/ElementViewFactory.cs:10-14 | the table's keys are exactly the configured kinds, each mapped to the prefab of its first pair |
| `ViewFactory.ElementViewFactory.constructor` | Assets/Scripts/ElementViewFactory.cs:7-15 | the insertion loop builds the first-pair-wins table of the configuration |
| `ViewFactory.ElementViewFactory.GetPrefab` | Assets/Scripts/ElementViewFactory.cs:17-22 | returns `Found` with the prefab of the first configured pair of the kind, and `Missing` (the C# null) iff no pair has the kind; a configured pair whose prefab is unassigned gives `Found` of that null prefab, which C# also returns as null; the table is not modified |

## Left out

- Cancellation, `Task.Delay` polling and fire-and-forget tasks are not modelled. They concern timing, not board logic. Each awaited listener call becomes an append to the ghost event log and is assumed to return; what the source does when a listener throws is listed below, member by member. The normalisation loop runs synchronously.
- The `capturedElements != _elements` check is not modelled. In a synchronous model no level can be loaded while the loop runs, so the check always passes.
- The busy-cell wait in `StartNormalizationAsync` cannot make progress without concurrency. When busy cells remain, `NormalizeLoop` defers: it leaves the board unchanged and `needsNormalization` set.
- Likewise, when a busy tile still waits to fall, the gravity polling branch ends the call. `ApplyGravity` then reports `pending` instead of waiting.
- Board.BoardService.TryMove: a `from` outside the grid faults in the source. The model refuses such a move and changes nothing.
- Board.BoardService.TryMove assumes that `OnElementsMoved` returns. When it throws (Assets/Scripts/BoardService.cs:170), the source neither exchanges the cells nor saves. Its `finally` (:180-184) still removes `from` and `to` from the busy set, and the exception reaches the caller. The model does not describe this path.
- Board.BoardService.MoveCells proves that neither cell is left busy only for a listener that returns. When `OnElementsMoved` throws, the source also releases both cells, in the `finally` at Assets/Scripts/BoardService.cs:180-184, and it leaves them unexchanged and the board unsaved.
- Board.BoardService.DestroyCells assumes that `OnElementsDestroyed` returns. When it throws (Assets/Scripts/BoardService.cs:224-225), the source's `finally` (:228-235) still empties and releases every matched cell. The board is then not saved and `_needsNormalization` is not set again. The outer `finally` (:248-251) resets `_isNormalizing`, and the exception reaches the caller. The model proves the clearing and the release only for a listener that returns.
- Gravity.ApplyGravity assumes that `onElementsMoved` returns. When it throws (Assets/Scripts/GravityService.cs:54), the grid keeps the drops of that pass, which were applied before the call (:42-52). The `finally` (:57-64) releases every endpoint of the pass, and the exception reaches the caller with no further pass. The model does not describe this path.
- The model does not check that `dir` is a unit vector, and neither does the source. Any target inside the padded board is accepted, including a padding column.
- Integers are unbounded. The model does not capture 32-bit overflow of a move target, of the level index or of `width * height`.
- JSON serialisation is assumed exact. A saved board is stored and read back as the same value.
- Board.BoardService.LoadLevel requires a level with non-negative width and height and at least `width * height` cells, and the board's constructor requires every configured level to be one. Cells past that prefix are never read, as in the source. The source faults on, or behaves differently for, the other levels:
  - a negative height, or a width of -3 or less, faults when the padded array is allocated (Assets/Scripts/BoardService.cs:87), after `LevelData` and the padded dimensions are already assigned;
  - a width of -1 or -2 gives a padded board one or zero columns wide that holds only `None`;
  - an array shorter than `width * height` faults in `GetElement` (Assets/Scripts/Configs/LevelData.cs:12).

  The model covers none of these levels.
- Persistence.SaveService.LoadBoard requires a saved board. The source would parse an empty string in that case.
- Persistence.SaveService.SaveBoard requires non-negative width and height. In the source only a negative product `width * height` faults, at the allocation (Assets/Scripts/SaveService.cs:26). Negative dimensions with a non-negative product, such as -1 by -1 or a negative width with height 0, store a snapshot with those dimensions and `width * height` default cells, which the model does not capture. The board never saves negative dimensions, because a level that would produce them faults earlier, when its padded array is allocated.
- Progression.LevelService.constructor requires at least one configured level. In the source, an empty level list makes every lookup fault, because `index % 0` divides by zero (Assets/Scripts/LevelService.cs:41).
- Progression.LevelService.LoadInitialLevel requires a non-negative stored index, and so does `Board.BoardService.LoadInitialState`. The C# `%` truncates toward zero (Assets/Scripts/LevelService.cs:41). A negative index that is not a multiple of the level count therefore gives a negative array index, and the lookup faults. A negative multiple of the count gives level 0, and the fault comes at the next `GetNextLevel`. With a single level, no negative index ever faults.
- `MatchFinder.FindMatches` returns a set. The order of the C# list is not modelled.
- The element-type enumeration is not part of this model. `ElementType` is `None` or `Tile(kind)`.
- `LevelEditor.LevelDataEditor.ResizeArray` takes as a parameter the value Unity stores in an array slot added by resizing. That slot is read only when the old array is shorter than its dimensions say.
- Drawing code is not modelled: the inspector's grid drawing, board and element views, input, balloons, the menu, and dependency-injection wiring.

## Findings

| source | as written | input that shows it | evidently intended | confidence | as-written member | corrected member |
|---|---|---|---|---|---|---|
| Assets/Scripts/Editor/LevelDataEditor.cs:31-39 | the clamped width and height are written back only inside the resize branch | a level stored as width 0, height 0 with an empty array, and the user enters width -3: clamping gives 0, which equals the stored width, so no resize happens and -3 stays stored | negative dimensions are always stored as 0 | not executed; medium, the next inspector update repairs it | `LevelEditor.InspectKeepsNegativeWidth` | `LevelEditor.InspectClampedWellFormed` |

`LevelEditor.LevelDataEditor.OnInspectorGUI` models the code as written. `LevelEditor.InspectClamped` is the update with the clamped values always written back.
