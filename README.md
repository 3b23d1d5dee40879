# Minesweeper game logic in Dafny

This project models the game logic of a JavaFX minesweeper: the minefield, the board controller's move handling and the per-tile state. Rendering, animation and dialogs are stripped away. The repository has two copies of the game:
- `rwt.minesweeper`, a resizable board with graded label colours;
- `rwt.game.minesweeper`, a fixed 20x20 board with blue labels.

Their logic is the same. One `Controller` class and one `TileBox` class cover both, and the differences live in a `Config` value:
- the board dimensions;
- the delay constant (0.04 s against 0.02 s, kept in hundredths; it is recorded only, since the transitions carry the squared distance and no member reads the constant);
- the label palette.

The model has five modules:

- `Counting` (counting.dfy) holds the pure definitions of a bomb layout and its neighbour count. `CountBlock` mirrors the clamped 3x3 window loop. `BombsAround` is an independent set definition of the same neighbourhood, and lemmas connect the two.
- `Field` (field.dfy) holds `class MineField`. It has the `byte` grid (`array2<int8>`) that the constructor fills in two passes:
  - a placement pass;
  - a counting pass, `StoreCounts`, which rewrites the grid in place while it reads it.

  It also holds the `HasBomb` and `CountNeighbors` queries and the looping `SlowNeighborCount`. A ghost `layout` records which cells the placement pass made bombs.
- `Tiles` (tiles.dfy) holds `class TileBox`, with the `flipped`/`flagged` fields, `Flip`, `Flag` and `Explode`. It also holds the label rule and the count-to-colour switch.
- `Flood` (flood.dfy) holds the pure specification of `recursiveFlip`:
  - `Fill`, `FillRows` and `FillCols` follow the recursion and its two loops exactly, including the order of visits and the transitions list;
  - lemmas prove that a fill logs each new tile once, never flips a bomb and closes over zero-count tiles;
  - they also prove that, in the order of the log, the fill spreads only through zero-count tiles: each tile after the first is adjacent to a zero-count tile logged earlier.
- `Game` (game.dfy) holds the pure semantics of a left click (`Click`), a right click (`RightClick`) and the win test (`Won`), with lemmas about them.
- `Controllers` (controller.dfy) holds `class Controller`. It has the minefield, the `mineFieldView` array of tiles and the methods of the two `FXMLController`s.
  - Each method is proved to leave the board in the state that the pure `Flood`/`Game` functions describe. For example, `HandleClick` yields exactly `Click(Layout(), old(Overlay()), x, y)`.
  - The overlay (which tiles are face up, which are flagged) is read off the tiles through a ghost map from each tile to its cell. That map also proves that no two cells share a tile.

The random draws are an input: the constructors take a grid of reals in [x][y] order, and a cell is a bomb when its draw is below the bomb fraction. The use of `Random` itself is not modelled.

## Model

| member | source | states |
|---|---|---|
| Field.Placement | src/main/java/rwt/game/minesweeper/MineField.java:22-26 | the placement pass yields a w x h layout with a bomb exactly at the cells whose draw is below the bomb fraction |
| Field.PlacementMarks | src/main/java/rwt/game/minesweeper/MineField.java:22-26 | the placement pass puts a bomb at (x, y) exactly when that cell's draw is below the bomb fraction |
| Field.MineField.constructor | src/main/java/rwt/game/minesweeper/MineField.java:17-33 | after both passes the grid's bomb tests match the placed layout and every cell holds the value the counting pass stores for it |
| Field.MineField.StoreCounts | src/main/java/rwt/game/minesweeper/MineField.java:27-31 | the in-place counting pass, run on a grid whose bomb tests match the layout, leaves -1 at every bomb and the neighbour count everywhere else, with the bomb tests intact throughout |
| Field.MineField.HasBomb | src/main/java/rwt/game/minesweeper/MineField.java:35-37 | after construction the bomb test holds exactly at the cells the placement pass marked |
| Field.MineField.CountNeighbors | src/main/java/rwt/game/minesweeper/MineField.java:39-42 | the query answers 0 at a bomb and the clamped window's bomb count elsewhere, always in 0..8 |
| Field.MineField.SlowNeighborCount | src/main/java/rwt/game/minesweeper/MineField.java:44-58 | the loop answers -1 at a bomb and otherwise counts the bombs of the clamped 3x3 window; it needs only the bomb tests, which the counting pass keeps |
| Counting.CountRow | src/main/java/rwt/game/minesweeper/MineField.java:53-55 | the inner counting loop, columns lo .. hi - 1 of one row, counts at most as many bombs as the stretch has cells |
| Counting.CountBlock | src/main/java/rwt/game/minesweeper/MineField.java:52-56 | the two counting loops over a block of rows; a block at most three wide, such as the window, counts at most three bombs per row |
| Counting.NeighborCount | src/main/java/rwt/game/minesweeper/MineField.java:47-57 | the loops over the 3x3 window clamped to the grid, centre included, count at most nine bombs |
| Counting.Stored | src/main/java/rwt/game/minesweeper/MineField.java:29 | the value the counting pass stores is -1 exactly at a bomb and otherwise the window count, which lies in 0..8; so line 29's byte cast is exact and every later bomb test stays intact |
| Counting.Count | src/main/java/rwt/game/minesweeper/MineField.java:39-42 | the count query answers 0 at a bomb and otherwise the window count, never more than 8 |
| Counting.CountRowIsSize | src/main/java/rwt/game/minesweeper/MineField.java:53-55 | the inner counting loop's total is the number of bomb cells in that stretch of the row |
| Counting.CountBlockIsSize | src/main/java/rwt/game/minesweeper/MineField.java:52-56 | the two counting loops' total is the number of bomb cells in the block |
| Counting.NeighborCountIsBombsAround | src/main/java/rwt/game/minesweeper/MineField.java:47-57 | the window count equals the size of the set of bomb cells at most one step away on the grid: clamped, with no wrap-around |
| Counting.ZeroCountMeansNoBombAround | src/main/java/rwt/game/minesweeper/MineField.java:47-57 | a zero window count means no in-bounds neighbour is a bomb |
| Counting.RowWithSafeCell | src/main/java/rwt/game/minesweeper/MineField.java:53-55 | a row stretch with a safe cell counts at most its length minus one |
| Counting.BlockWithSafeCell | src/main/java/rwt/game/minesweeper/MineField.java:52-56 | such a block containing a safe cell counts one less than that bound |
| Counting.NeighborCountAtMostEight | src/main/java/rwt/game/minesweeper/MineField.java:47-57 | the window count of a safe cell is at most 8, because the centre is not a bomb |
| Counting.CountInRange | src/main/java/rwt/game/minesweeper/MineField.java:39-42 | the count query is 0 at a bomb, is in 0..8 everywhere, and elsewhere equals the reference neighbourhood's size |
| Tiles.GradedColour | src/main/java/rwt/minesweeper/TileBox.java:91-100 | the colour switch: every count outside 1..7 falls through to black |
| Tiles.LabelFor | src/main/java/rwt/minesweeper/TileBox.java:89-107 | a tile gets a label exactly when its count is positive; the label shows the count in the palette's colour for it |
| Tiles.LabelPresentIffPositive | src/main/java/rwt/minesweeper/TileBox.java:89-107 | a tile has a label exactly when its count is positive, and the label shows that count; under the all-blue palette of rwt.game.minesweeper's TileBox (lines 75-83) the label is blue |
| Tiles.GradedColoursDistinct | src/main/java/rwt/minesweeper/TileBox.java:91-100 | counts 1..7 get seven distinct colours and only the fallback count 8 is black |
| Tiles.TileBox.constructor | src/main/java/rwt/minesweeper/TileBox.java:65-69 | a new tile is neither flipped nor flagged and carries the label of its count (likewise rwt.game.minesweeper's TileBox, lines 59-63) |
| Tiles.TileBox.Flip | src/main/java/rwt/minesweeper/TileBox.java:117-118 | flip sets flipped and leaves flagged alone |
| Tiles.TileBox.Flag | src/main/java/rwt/minesweeper/TileBox.java:130-133 | flag toggles flagged and leaves flipped alone |
| Tiles.TileBox.Explode | src/main/java/rwt/minesweeper/TileBox.java:135-136 | explode sets flipped and leaves flagged alone |
| Tiles.FlagTwice | src/main/java/rwt/game/minesweeper/TileBox.java:105-107 | flagging twice restores the flag and does not change flipped |
| Flood.Fill | src/main/java/rwt/minesweeper/FXMLController.java:161-182 | a recursive flip only adds flipped tiles and only appends transitions, and (x, y) is face up afterwards |
| Flood.FillRows | src/main/java/rwt/minesweeper/FXMLController.java:176-180 | the window's row loop only adds flipped tiles and transitions |
| Flood.FillCols | src/main/java/rwt/minesweeper/FXMLController.java:177-179 | the window's column loop only adds flipped tiles and transitions |
| Flood.FillStops | src/main/java/rwt/minesweeper/FXMLController.java:163-170 | on a face-up tile the flip changes nothing and appends nothing; a face-down numbered tile is flipped and logged with its squared distance, and does not expand |
| Flood.FirstFlipLogsOnce | src/main/java/rwt/minesweeper/FXMLController.java:166-167 | flipping one new tile and appending its transition logs that tile exactly once |
| Flood.LogsNewOnceTrans | src/main/java/rwt/minesweeper/FXMLController.java:176-180 | logging new tiles once is preserved across consecutive recursive calls |
| Flood.FillLogsOnce | src/main/java/rwt/minesweeper/FXMLController.java:163-167 | each tile a fill newly flips is appended exactly once and nothing else is appended |
| Flood.FillRowsLogsOnce | src/main/java/rwt/minesweeper/FXMLController.java:176-180 | the same for the window's row loop |
| Flood.FillColsLogsOnce | src/main/java/rwt/minesweeper/FXMLController.java:177-179 | the same for the window's column loop |
| Flood.DistinctSize | src/main/java/rwt/minesweeper/FXMLController.java:167 | a transitions list that names each cell once is as long as the set of cells it names |
| Flood.FillLogLength | src/main/java/rwt/minesweeper/FXMLController.java:163-167 | the number of transitions a fill appends equals the number of tiles it newly flips |
| Flood.FillNeverFlipsBomb | src/main/java/rwt/minesweeper/FXMLController.java:170-180 | a fill started on a safe tile never flips a bomb, because only zero-count tiles expand |
| Flood.FillRowsNeverFlipsBomb | src/main/java/rwt/minesweeper/FXMLController.java:176-180 | the window loop over bomb-free cells flips no bomb |
| Flood.FillColsNeverFlipsBomb | src/main/java/rwt/minesweeper/FXMLController.java:177-179 | the row loop over bomb-free cells flips no bomb |
| Flood.FillRowsCovers | src/main/java/rwt/minesweeper/FXMLController.java:176-180 | every cell of the window is face up after the window loop |
| Flood.FillColsCovers | src/main/java/rwt/minesweeper/FXMLController.java:177-179 | every cell of the row is face up after the row loop |
| Flood.FillClosed | src/main/java/rwt/minesweeper/FXMLController.java:161-182 | after a fill every newly flipped zero-count tile has all its in-bounds neighbours face up |
| Flood.FillRowsClosed | src/main/java/rwt/minesweeper/FXMLController.java:176-180 | the window loop keeps that closure |
| Flood.FillColsClosed | src/main/java/rwt/minesweeper/FXMLController.java:177-179 | the row loop keeps that closure |
| Flood.ChainedAppend | src/main/java/rwt/minesweeper/FXMLController.java:176-180 | the logs of consecutive recursive calls, each spreading from the window through zero-count tiles only, together still spread that way |
| Flood.FillBoundedByNumbers | src/main/java/rwt/minesweeper/FXMLController.java:161-182 | in the order of the log, the fill spreads only through zero-count tiles: the first tile it logs is the start tile, and every later one is adjacent to a zero-count tile logged before it; a numbered tile never lets the fill past it |
| Flood.FillRowsBoundedByNumbers | src/main/java/rwt/minesweeper/FXMLController.java:176-180 | every tile the window loop logs is a window cell or is adjacent to a zero-count tile the loop logged before it |
| Flood.FillColsBoundedByNumbers | src/main/java/rwt/minesweeper/FXMLController.java:177-179 | every tile the row loop logs is a window cell or is adjacent to a zero-count tile the loop logged before it |
| Game.Won | src/main/java/rwt/minesweeper/FXMLController.java:114-122 | checkForWin's scan: every tile is face up or a bomb, flags aside; a board with every tile face up is won |
| Game.Click | src/main/java/rwt/minesweeper/FXMLController.java:145-155 | handleClick: it explodes exactly when the clicked tile is unflagged and a bomb, an explosion is never a win, no flag changes, and an unflagged clicked tile ends face up |
| Game.RightClick | src/main/java/rwt/minesweeper/FXMLController.java:157-159 | handleRightClick: the flag of (x, y) toggles, every other flag and every face-up tile stay as they were |
| Game.FlaggedTileIgnoresClick | src/main/java/rwt/minesweeper/FXMLController.java:146 | a left click on a flagged tile changes nothing (likewise rwt.game.minesweeper's controller, line 107) |
| Game.BombClickFlipsAll | src/main/java/rwt/minesweeper/FXMLController.java:148-149 | a left click on an unflagged bomb explodes: every tile is face up and no flag changes |
| Game.ClickOnlyFlips | src/main/java/rwt/minesweeper/FXMLController.java:145-155 | a left click never turns a tile back over, keeps flipped tiles on the grid and never touches a flag |
| Game.ClickWinsIffAllSafeFlipped | src/main/java/rwt/minesweeper/FXMLController.java:114-130 | a safe click wins exactly when every tile is face up or a bomb after the fill; a win turns every tile face up, and a non-win leaves some safe tile face down |
| Game.SafeClickKeepsBombsHidden | src/main/java/rwt/minesweeper/FXMLController.java:150-152 | while no bomb shows, a safe click either wins or still shows no bomb |
| Game.SafeClickTransitions | src/main/java/rwt/minesweeper/FXMLController.java:183-189 | a safe click's transitions name each newly flipped tile once, the clicked tile first at distance 0 |
| Game.FirstTransition | src/main/java/rwt/minesweeper/FXMLController.java:163-167 | a fill from a face-down tile logs that tile first, at distance 0 |
| Game.ClickAfterExplosionAnnouncesWin | src/main/java/rwt/minesweeper/FXMLController.java:145-155 | no game-over state blocks clicks: after an explosion a click on an unflagged safe tile flips nothing and announces a win |
| Game.RightClickToggles | src/main/java/rwt/minesweeper/FXMLController.java:157-159 | a right click toggles only (x, y)'s flag, flipped or not, and two of them cancel out |
| Game.ClickSpreadsThroughZeros | src/main/java/rwt/minesweeper/FXMLController.java:183-189 | a click's transitions start at the clicked tile, and every later one is adjacent to an earlier tile whose count is 0 |
| Game.NumberedClickFlipsOneTile | src/main/java/rwt/minesweeper/FXMLController.java:170 | a click on a face-down numbered tile flips and logs that tile alone, and the board is then checked for a win |
| Controllers.Controller.constructor | src/main/java/rwt/minesweeper/FXMLController.java:73-111 | setupBoard builds a new minefield from the draws and a newly allocated, unflipped, unflagged tile per cell, no two cells sharing one, labelled with that cell's count: the overlay is empty |
| Controllers.Controller.PlaceRow | src/main/java/rwt/minesweeper/FXMLController.java:88-107 | one row of setupBoard's tile loop places a newly allocated, unflipped, unflagged, correctly labelled tile at every cell of the row, registered at that cell |
| Controllers.Controller.FlipTile | src/main/java/rwt/minesweeper/FXMLController.java:167 | flipping one tile adds exactly that cell to the face-up set and changes nothing else |
| Controllers.Controller.RecursiveFlip | src/main/java/rwt/minesweeper/FXMLController.java:161-182 | the face-up tiles and the transitions list recursiveFlip leaves are exactly those of the fill specification, and no flag changes |
| Controllers.Controller.FlipWindow | src/main/java/rwt/minesweeper/FXMLController.java:172-180 | the clamped window's row loop leaves exactly the state the window specification gives |
| Controllers.Controller.FlipWindowRow | src/main/java/rwt/minesweeper/FXMLController.java:177-179 | the window's column loop, for one row, leaves exactly the state the row specification gives |
| Controllers.Controller.ExplodeTile | src/main/java/rwt/minesweeper/FXMLController.java:198 | exploding one tile turns exactly that tile face up and changes nothing else |
| Controllers.Controller.AllFlipped | src/main/java/rwt/minesweeper/FXMLController.java:126-130 | when every tile of the view is face up, the overlay's face-up set is every cell |
| Controllers.Controller.HandleExplosion | src/main/java/rwt/minesweeper/FXMLController.java:191-205 | after handleExplosion every tile is face up and no flag has changed |
| Controllers.Controller.CheckForWin | src/main/java/rwt/minesweeper/FXMLController.java:114-143 | checkForWin reports a win exactly when every tile is face up or a bomb, flags aside; on a win every tile is turned face up, otherwise nothing changes |
| Controllers.Controller.FlipAll | src/main/java/rwt/minesweeper/FXMLController.java:125-130 | checkForWin's second loop turns every tile face up and changes no flag |
| Controllers.Controller.HandleNormalClick | src/main/java/rwt/minesweeper/FXMLController.java:183-189 | handleNormalClick leaves exactly the state and the transitions of a fill from (x, y) with an empty list |
| Controllers.Controller.HandleClick | src/main/java/rwt/minesweeper/FXMLController.java:145-155 | handleClick leaves exactly the overlay, transitions, explosion and win that the pure left-click semantics gives for the old overlay |
| Controllers.Controller.HandleRightClick | src/main/java/rwt/minesweeper/FXMLController.java:157-159 | handleRightClick leaves exactly the overlay the pure right-click semantics gives: only (x, y)'s flag toggles |

The rwt.game.minesweeper controller (src/main/java/rwt/game/minesweeper/FXMLController.java) is the same class under `FixedConfig`:
- setupBoard is at lines 43-79;
- checkForWin is at lines 82-104, and it scans the view's own dimensions, which `Valid` ties to the configuration;
- handleClick is at lines 106-115 and handleRightClick at 117-119;
- recursiveFlip is at lines 121-142, with its window loops at 132-140;
- handleExplosion is at lines 151-165.

Two things are left to the compiler rather than stated as contracts:
- `HasBomb` and `CountNeighbors` are functions, so they modify nothing and repeated queries give the same answer.
- Every operation requires in-bounds coordinates, where the Java code would throw an index exception.

## Left out

- Rendering and animation are not modelled. This covers the JavaFX `RotateTransition`, `ParallelTransition`, `Timeline` and `KeyFrame` objects, the materials and mouse-hover colours, the status text and the win label, the `sploded` style class and `Platform.runLater`/`System.gc`. The model keeps only each tile's `flipped` and `flagged` effect.
- Transition: the start delay is kept as the integer squared distance from the click. The square root, the conversion to seconds and the 0.33 s rotation are left out because they are floating point. The delay factor is recorded as `Config.delayHundredths`, and no member reads it.
- `RecursiveFlip` passes the transitions list in and returns it, instead of appending to a shared Java `List`.
- `Random` and `nextFloat` become an input grid of draws. `explode`'s own `Random` and its geometry are left out, because they only shape the animation.
- `howManyMines` is left out. Both controllers call it, but rwt.game.minesweeper's MineField.java does not define it.
- rwt.minesweeper's own MineField.java is not part of this model. Its controller is assumed to use a MineField that behaves like rwt.game.minesweeper's.
- setupBoard's tile row, the counting pass and checkForWin's second loop are separate methods (`PlaceRow`, `StoreCounts`, `FlipAll`). rwt.minesweeper's recursiveFlip window loops are two helper methods (`FlipWindow` for the rows, `FlipWindowRow` for one row). In the Java code each is a loop nested inside its caller.
- setupBoard's clearing of the old board builds a fresh `Controller` instead of reusing one. So a new game is a constructor call.
- `TileBox.setNewSize` and `resize` are left out. They fit fonts and layout in floating point.
- `keyTyped`, `btnNewGame`, `btnOptions`, `btnExit`, `initialize` and the options dialog are left out. They only wire input to the modelled operations; choosing new dimensions in the dialog amounts to constructing a controller with a new `ResizableConfig`.
- The two MainApp classes (window and scene setup) and the build script are left out.
