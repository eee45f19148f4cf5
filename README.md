# Pop Block game-state engine in Dafny

This project models the game-state engine of `Pop_Block.py`, a falling-block
puzzle game, and proves properties of it. The model covers:

- the catalogue of seven pieces and their four rotation states;
- the grid: collisions, placing a piece, finding full rows and removing them;
- the active piece: rotating, moving and hard-dropping;
- the score manager;
- the non-I/O logic of the engine: initialising, spawning from the preview
  queue, locking, the per-frame fall timer and the per-frame commands.

The project has two layers.

- **Value modules** hold the game's data as values, each operation of the
  source as a function of that data, and the properties as lemmas:
  - `Shapes`: matrices, the clockwise turn, rotation states, cell counts,
    occupied offsets, the catalogue and the factory;
  - `Grid`: the board, collisions, placing, full rows, sorting, removing rows;
  - `Piece`: the piece state, moving, rotating and hard-dropping;
  - `Scoring`: the score state, with the multiplier kept as whole tenths;
  - `Session`: the whole engine state, its frame-by-frame transitions and the
    invariant they keep.
- **Module `PopBlock`** holds the source's classes as Dafny classes whose
  methods update fields in place: `GameGrid`, `ActiveTetromino`,
  `ScoreManager` and `GameEngine`. Each method is proved to leave its object
  in exactly the state the matching value function gives. Each loop is proved
  against that function with invariants. The collision scan, the placing
  scan, the full-row scan, the row-removal loop and the hard-drop loop are
  all loops.

Random choices of the factory are parameters:

- `refill` is the ten kinds `_initialize_game` draws;
- `next` is the kind appended to the preview queue when a piece spawns.

The pressed keys of one frame are a `Commands` value.

Three behaviours of the code are easy to misread. A lemma states each one:

- `add_line_clear_score(0)` still adds the combo bonus times the multiplier
  and resets the combo (`Scoring.LineClearZero`).
- The engine only reports cleared lines when at least one row was full. So
  in play the combo never resets, and the fall speed is only recomputed after
  a clear (`Session.LockClears`, `Session.LockScoresGrow`).
- A failed placement leaves on the grid the cells written before the first
  blocked one (`Grid.PlaceFailureKeepsPrefix`).

## Model

| member | source | states |
|---|---|---|
| Shapes.ZipWidth | Pop_Block.py:150 | `zip` stops at the shortest row: the width is at most every row's length and equal to one of them, and 0 for a matrix without rows |
| Shapes.RotateCW | Pop_Block.py:150-151 | the clockwise turn of an R-row matrix has one row per column, each of length R, and entry (i, j) is the input's entry (R-1-j, i) |
| Shapes.RotateRectangular | Pop_Block.py:150-151 | an R x C rectangular matrix turns into a C x R rectangular one |
| Shapes.RotateTwice | Pop_Block.py:144-154 | two turns are the half turn: entry (i, j) becomes entry (R-1-i, C-1-j) |
| Shapes.RotateFourTimes | Pop_Block.py:144-154 | four clockwise turns give back the original matrix |
| Shapes.GenerateRotations | Pop_Block.py:144-154 | there are four rotation states; the first is the base matrix itself and each later one is the turn of the one before |
| Shapes.RotationsFrom | Pop_Block.py:148-153 | the loop keeps the states it started with and appends one turned state per round |
| Shapes.RotationStatesCycle | Pop_Block.py:144-154 | all four states are rectangular with alternating dimensions, and turning the last one gives back the base |
| Shapes.RotatePreservesCount | Pop_Block.py:150 | a turn keeps the number of occupied cells |
| Shapes.RotationStatesKeepCount | Pop_Block.py:144-154 | every rotation state has as many occupied cells as the base |
| Shapes.CoordsMembership | Pop_Block.py:239-241 | the scanned offsets are exactly the positions holding 1 |
| Shapes.CoordsOrdered | Pop_Block.py:239-241 | the nested `enumerate` visits offsets in strict row-major order |
| Shapes.CoordsCount | Pop_Block.py:366-367 | the number of scanned offsets is `sum(sum(row) for row in m)` |
| Shapes.ColorCodesDistinct | Pop_Block.py:306-317 | two kinds share a colour code only when they are the same kind |
| Shapes.BaseMatrixShape | Pop_Block.py:163-203 | every base matrix is rectangular, at most 2 x 4, with four occupied cells |
| Shapes.DefinitionFacts | Pop_Block.py:140-203 | each catalogue entry keeps its kind, matrix and colour, and has four four-cell rectangular states that turn one into the next and back to the base |
| Shapes.BaseMatrix | Pop_Block.py:163-203 | the seven base matrices; their shape and cell count are stated by `Shapes.BaseMatrixShape` |
| Shapes.ColorCode | Pop_Block.py:306-317 | `_get_color_code`'s table; `Shapes.ColorCodesDistinct` states that it tells the kinds apart |
| Shapes.NewFactory | Pop_Block.py:159-203 | the factory's dictionary of definitions; `Shapes.NewFactoryLookup` and `Piece.NewFactoryOk` state what it holds |
| Shapes.GetDefinition | Pop_Block.py:209-211 | the dictionary lookup, whose precondition is the key being present, where Python would raise; `Shapes.NewFactoryLookup` states its result |
| Shapes.NewFactoryLookup | Pop_Block.py:159-211 | a new factory holds every kind, and `get_definition` returns that kind's catalogue entry |
| Grid.EmptyRow | Pop_Block.py:229 | a new row has `width` empty cells |
| Grid.EmptyBoard | Pop_Block.py:222-229 | a new grid is `height` rows of `width` cells, all empty |
| Grid.Blocked | Pop_Block.py:286-290 | the two tests of the collision scan for one cell; `Grid.CollidesIff` states what they allow |
| Grid.CollidesAny | Pop_Block.py:279-292 | the early-return scan over a list of offsets; specified by `Grid.CollidesAnyIff` |
| Grid.Collides | Pop_Block.py:274-292 | `is_collision` over the current matrix's occupied offsets; specified by `Grid.CollidesIff` |
| Grid.CollidesAnyIff | Pop_Block.py:279-292 | the scan reports a collision exactly when some offset in the list lands on a blocked cell |
| Grid.CollidesIff | Pop_Block.py:274-292 | a piece collides exactly when some occupied cell is left of column 0, right of the last column, below the floor, or on a filled cell at row 0 or lower; cells above the top are allowed |
| Grid.Paint | Pop_Block.py:249 | writing one cell keeps the grid's dimensions |
| Grid.PaintCell | Pop_Block.py:249 | writing one cell changes that cell only, and only that cell's freeness |
| Grid.PlaceFrom | Pop_Block.py:239-252 | placing keeps the grid's dimensions |
| Grid.PlaceFromOk | Pop_Block.py:239-252 | placing a row-major list of offsets succeeds exactly when every target cell was free beforehand |
| Grid.PlaceFromPaints | Pop_Block.py:239-252 | a successful placement fills exactly the listed cells with the code and leaves every other cell as it was |
| Grid.PlaceFromFailure | Pop_Block.py:239-252 | a failed placement stops at the first blocked offset, after filling exactly the offsets before it |
| Grid.Place | Pop_Block.py:235-252 | placing a piece keeps the grid's dimensions |
| Grid.PlaceSucceedsIff | Pop_Block.py:235-252 | placement succeeds exactly when the piece does not collide and none of its cells is above the top row |
| Grid.PlacePaintsPiece | Pop_Block.py:235-252 | after a successful placement each cell the piece covers holds its code and every other cell is unchanged |
| Grid.PlaceFailureKeepsPrefix | Pop_Block.py:235-252 | after a failed placement the grid holds the cells written before the first blocked one |
| Grid.FullRowsBelow | Pop_Block.py:256-260 | the scan of the first n rows returns the full ones among them, strictly ascending |
| Grid.FullRows | Pop_Block.py:254-262 | the completed rows are row indices of the grid |
| Grid.FullRowsSpec | Pop_Block.py:254-262 | the completed rows are strictly ascending and distinct, and a row is listed exactly when no cell in it is empty |
| Grid.Insert | Pop_Block.py:266 | one insertion step of the sort adds the value to the list's multiset |
| Grid.InsertAscending | Pop_Block.py:266 | inserting into an ascending list keeps it ascending |
| Grid.SortRows | Pop_Block.py:266 | `rows.sort()` returns an ascending permutation of its input |
| Grid.SortRowsDistinct | Pop_Block.py:266 | sorting distinct rows gives a strictly ascending list with the same length and the same elements |
| Grid.SortRowsOfSorted | Pop_Block.py:266 | sorting an already strictly ascending list leaves it unchanged |
| Grid.DeleteRow | Pop_Block.py:270-272 | deleting a row and inserting an empty one on top keeps the grid's dimensions |
| Grid.RemoveSorted | Pop_Block.py:268-272 | the loop over the sorted rows keeps the grid's dimensions |
| Grid.SortRowsInRange | Pop_Block.py:266 | sorting keeps every row index within the grid |
| Grid.RemoveLines | Pop_Block.py:264-272 | removing any in-range rows keeps the grid's dimensions |
| Grid.RemoveLinesLayout | Pop_Block.py:264-272 | for k distinct rows the new grid is k empty rows on top of the rows not removed, in their original order |
| Piece.NewFactoryOk | Pop_Block.py:159-211 | a new factory holds every kind, each with four well-shaped cycling states whose first is at most 2 x 4 |
| Piece.Spawned | Pop_Block.py:298-304 | a fresh piece; `Piece.SpawnShape`, `Piece.SpawnFitsEmpty` and `Session.SpawnSpec` state its shape, its fit and its use |
| Piece.Shape | Pop_Block.py:319-321 | the matrix of the current rotation state; `Piece.TurnShape` states how it changes with the index |
| Piece.Move | Pop_Block.py:343-348 | `move`; specified by `Piece.MoveSpec` and `Piece.MoveUndo` |
| Piece.Rotate | Pop_Block.py:328-341 | `rotate`; specified by `Piece.RotateSpec` and `Piece.RotateUndo` |
| Piece.HardDrop | Pop_Block.py:350-353 | `hard_drop`; specified by `Piece.HardDropSpec` and `Piece.HardDropIdempotent` |
| Piece.MoveSpec | Pop_Block.py:343-348 | a move succeeds exactly when the shifted piece does not collide; a successful move changes the position by (dx, dy) and nothing else, and the moved piece fits; a failed move leaves the piece unchanged |
| Piece.MoveUndo | Pop_Block.py:343-348 | a successful move of a fitting piece is undone by the opposite move |
| Piece.Turn | Pop_Block.py:333-336 | a positive direction adds one modulo 4, any other direction subtracts one modulo 4 |
| Piece.TurnUndo | Pop_Block.py:333-336 | turning one way then the other gives back the rotation index |
| Piece.TurnShape | Pop_Block.py:319-336 | on a cycling definition a clockwise step turns the current matrix clockwise and a counter-clockwise step undoes a clockwise turn |
| Piece.RotateSpec | Pop_Block.py:328-341 | a rotation succeeds exactly when the turned piece would fit; a successful rotation changes the rotation index by one turn and nothing else, and the turned piece fits; a failed rotation restores the old index |
| Piece.RotateUndo | Pop_Block.py:328-341 | a successful rotation of a fitting piece is undone by the rotation in the other direction |
| Piece.FloorBound | Pop_Block.py:283-286 | a matrix with an occupied cell that does not collide has its top row above the floor |
| Piece.DropRow | Pop_Block.py:350-353 | the row where the drop stops is at or below the start, and one row lower collides |
| Piece.DropRowPath | Pop_Block.py:350-353 | every row the drop passes through, below the start, is free of collision |
| Piece.DropRowEnds | Pop_Block.py:350-353 | a row reached through collision-free rows, with a collision just below it, is where the drop stops |
| Piece.HardDropSpec | Pop_Block.py:350-353 | a hard drop keeps the kind, definition, rotation and column, stops at or below the start, fits at every row passed, and collides one row lower |
| Piece.HardDropIdempotent | Pop_Block.py:350-353 | a dropped fitting piece fits, and dropping it again changes nothing |
| Piece.SpawnShape | Pop_Block.py:298-304 | a fresh piece of a new factory shows its kind's base matrix |
| Piece.InsideEmptyFits | Pop_Block.py:274-292 | a rectangular matrix lying inside an empty grid does not collide |
| Piece.SmallFitsEmpty | Pop_Block.py:274-292 | any rectangular matrix of at most 2 x 4 does not collide at [4, 0] on an empty 10 x 20 grid |
| Piece.SpawnFitsEmpty | Pop_Block.py:298-304 | on an empty 10 x 20 grid every fresh piece of the catalogue fits where it spawns |
| Scoring.TruncTenths | Pop_Block.py:368 | `int()` of a value given in tenths truncates toward zero: rounding down for a non-negative value and up for a negative one |
| Scoring.Initial | Pop_Block.py:358-363 | the values `__init__` sets; `Scoring.InitialConsistent` states they are consistent, at level 1 with multiplier 1.0 |
| Scoring.AddShapeScore | Pop_Block.py:365-368 | `add_shape_score`; specified by `Scoring.ShapeScoreExact` |
| Scoring.AddLineClearScore | Pop_Block.py:370-390 | `add_line_clear_score`; specified by `Scoring.LineClearSpec`, `Scoring.LineClearGrows` and `Scoring.LineClearZero` |
| Scoring.LineBase | Pop_Block.py:371-372 | the base score is positive exactly for 1 to 4 lines and zero otherwise |
| Scoring.LineBaseIncreasing | Pop_Block.py:371 | clearing more lines, up to four, has a higher base score |
| Scoring.InitialConsistent | Pop_Block.py:358-363 | the initial scores are consistent, at level 1 with multiplier 1.0 |
| Scoring.ConsistentLevel | Pop_Block.py:385-390 | in a consistent state the level is the tens of cleared lines plus one, and the multiplier is 0.9 plus a tenth per level, so at least 1.0 |
| Scoring.ShapeScoreExact | Pop_Block.py:365-368 | locking a piece with b cells adds b x 10 x multiplier exactly and changes nothing else |
| Scoring.OPieceAtLevelOne | Pop_Block.py:365-368 | locking four cells at level 1 scores 40 |
| Scoring.LineClearSpec | Pop_Block.py:370-390 | a clear of n > 0 lines adds the truncated (base + 50 x combo) x multiplier, adds n lines, raises the combo by one and keeps the state consistent |
| Scoring.LineClearGrows | Pop_Block.py:370-390 | a clear of n > 0 lines never lowers the score or the level and raises lines and combo |
| Scoring.LineClearZero | Pop_Block.py:370-390 | a call with 0 lines still adds the combo bonus times the multiplier, resets the combo, and keeps lines and level |
| Scoring.LineClearSingle | Pop_Block.py:370-390 | one line with no combo at level 1 scores 100 |
| Scoring.LineClearFourOnCombo | Pop_Block.py:370-390 | four lines on a combo of 2 at level 1 score 900 |
| Scoring.LevelThree | Pop_Block.py:385-390 | going from 16 to 20 cleared lines reaches level 3 with multiplier 1.2 |
| Scoring.FallSpeedFor | Pop_Block.py:790-794 | the fall speed is between 10 and 60 frames from level 1 on, and is 10 exactly from level 11 on |
| Scoring.FallSpeedMonotone | Pop_Block.py:790-794 | a higher level never falls more slowly |
| Scoring.FallSpeedLevelThree | Pop_Block.py:790-794 | at level 3 a piece falls every 50 frames |
| Session.Shifted | Pop_Block.py:836-842 | the movement command keeps the piece's kind and definition |
| Session.Turned | Pop_Block.py:844-848 | the rotation command keeps the piece's kind and definition |
| Session.Spawn | Pop_Block.py:800-816 | `_get_next_tetromino`; specified by `Session.SpawnSpec`, `Session.SpawnEmptyQueue`, `Session.SpawnKeepsInv` and `Session.SpawnKeepsScores` |
| Session.Initialize | Pop_Block.py:750-770 | `_initialize_game`; specified by `Session.InitializeFresh` and `Session.InitializeEstablishesInv` |
| Session.OnLineCleared | Pop_Block.py:784-794 | `_on_line_cleared`; its effect in a lock is stated by `Session.LockClears` and `Session.SettledClears` |
| Session.Scored | Pop_Block.py:859-862 | scoring then placing the piece keeps the grid's dimensions |
| Session.Cleared | Pop_Block.py:871-880 | removing the full rows and reporting them keeps the grid's dimensions |
| Session.Settled | Pop_Block.py:859-880 | a successful lock before its spawn; specified by `Session.SettledKeeps`, `Session.SettledClears` and `Session.SettledScoresGrow` |
| Session.Lock | Pop_Block.py:855-882 | `_lock_current_tetromino`; specified by `Session.LockInPlaySucceeds`, `Session.LockKeepsInv`, `Session.LockFailure`, `Session.LockClears` and `Session.LockScoresGrow` |
| Session.CountFrame | Pop_Block.py:889 | `fall_timer += 1`; `Session.CountFrameKeepsInv` states it keeps the invariant |
| Session.Tick | Pop_Block.py:884-893 | `_update_game_logic`; specified by `Session.TickFrozen`, `Session.TickLocks`, `Session.TickFalls`, `Session.TickCounts`, `Session.TickKeepsInv` and `Session.TickScoresGrow` |
| Session.Steered | Pop_Block.py:836-848 | both command chains; `Session.CommandsKeepFit` and `Session.SteeredKeepsInv` state that the piece keeps fitting |
| Session.Dropped | Pop_Block.py:851-852 | the hard drop of the current piece; specified by `Piece.HardDropSpec` and `Session.DroppedKeepsInv` |
| Session.HandleInput | Pop_Block.py:818-853 | `_handle_input`; specified by `Session.HandleInputKeepsInv`, `Session.GameOverFrozen`, `Session.PausedFrameOnlyPauses`, `Session.QuietFrameKeepsGame` and `Session.InputScoresGrow` |
| Session.PausedFrameOnlyPauses | Pop_Block.py:830-834 | a frame without restart that leaves the game paused changes only the pause flag |
| Session.QuietFrameKeepsGame | Pop_Block.py:830-848 | a frame without restart or hard drop leaves the grid, scores, queue, timer, speed and game-over flag as they were, and toggles pause exactly when asked |
| Session.SpawnSpec | Pop_Block.py:800-816 | a spawn takes the queue's head as a fresh piece at [4, 0], appends the new kind so the queue's length stays the same, ends the game exactly when the piece does not fit, and touches nothing else |
| Session.SpawnEmptyQueue | Pop_Block.py:814-816 | with an empty queue a spawn only ends the game |
| Session.SpawnKeepsInv | Pop_Block.py:800-816 | a spawn on a well-formed 10 x 20 engine with a full queue leaves the engine invariant true |
| Session.SpawnKeepsScores | Pop_Block.py:800-816 | a spawn never changes the scores |
| Session.InitializeFresh | Pop_Block.py:750-770 | initialising empties the grid, resets scores, flags and timer, keeps the fall speed, and spawns the first drawn kind with the other nine plus one in the queue |
| Session.InitializeEstablishesInv | Pop_Block.py:750-770 | initialising a 10 x 20 engine with a sound catalogue establishes the engine invariant |
| Session.LockInPlaySucceeds | Pop_Block.py:862-868 | locking a piece that fits at or below the top row always places it |
| Session.SettledKeeps | Pop_Block.py:855-880 | settling keeps a 10 x 20 grid, the queue length, a fall speed of at least 10 and consistent scores |
| Session.LockKeepsInv | Pop_Block.py:855-882 | locking in a running game keeps the engine invariant |
| Session.LockFailure | Pop_Block.py:859-868 | a failed placement ends the game with the piece scored, the partly written grid and the queue untouched |
| Session.LockClears | Pop_Block.py:869-880 | a lock adds the number of full rows to the lines, removes those rows, and recomputes the fall speed only when some row was full |
| Session.SettledClears | Pop_Block.py:869-880 | after placing, the full rows are removed, counted into the lines, and the fall speed follows the new level when any were full |
| Session.SettledScoresGrow | Pop_Block.py:859-880 | settling a piece adds at least 40 points and never lowers lines, level or combo |
| Session.LockScoresGrow | Pop_Block.py:855-882 | locking adds at least 40 points and never lowers lines, level or combo, so in play the combo never resets |
| Session.TickFrozen | Pop_Block.py:886-887 | a frame of a paused or finished game changes nothing |
| Session.ShiftedKeepsFit | Pop_Block.py:836-842 | a movement command keeps a fitting piece fitting and never moves it up |
| Session.TurnedKeepsFit | Pop_Block.py:844-848 | a rotation command keeps a fitting piece fitting on the same row |
| Session.CommandsKeepFit | Pop_Block.py:836-848 | a frame's movement and rotation keep a fitting piece fitting and never move it up |
| Session.TickLocks | Pop_Block.py:889-893 | when the timer is due and the piece cannot fall, the frame locks it and resets the timer |
| Session.TickFalls | Pop_Block.py:889-893 | when the timer is due and the piece can fall, the frame moves it down one row and resets the timer |
| Session.TickCounts | Pop_Block.py:889-890 | before the timer is due the frame only counts |
| Session.CountFrameKeepsInv | Pop_Block.py:889 | counting a frame keeps the invariant and the game-over flag |
| Session.TickLockKeepsInv | Pop_Block.py:889-893 | a frame that locks the piece keeps the invariant |
| Session.TickFallKeepsInv | Pop_Block.py:889-893 | a frame that moves the piece down keeps the invariant |
| Session.TickKeepsInv | Pop_Block.py:884-893 | every frame of game logic keeps the engine invariant |
| Session.SteeredKeepsInv | Pop_Block.py:836-848 | steering the piece in a running game keeps the invariant |
| Session.DroppedKeepsInv | Pop_Block.py:851-852 | hard-dropping in a running game keeps the invariant, keeps the game on and leaves the scores alone |
| Session.HandleInputKeepsInv | Pop_Block.py:818-853 | every frame's input, restart included, keeps the engine invariant |
| Session.GameOverFrozen | Pop_Block.py:830-834 | once the game is over only restart and pause have an effect, and the fall timer stops |
| Session.TickScoresGrow | Pop_Block.py:884-893 | a frame of game logic never lowers score, lines, level or combo |
| Session.InputScoresGrow | Pop_Block.py:830-853 | input without a restart never lowers score, lines, level or combo |
| Session.Frame | Pop_Block.py:927-937 | one pass of `run`'s loop is the frame's input, then one step of game logic; specified by `Session.FrameKeepsInv` and `Session.FrameScoresGrow` |
| Session.FrameKeepsInv | Pop_Block.py:927-937 | every pass of the main loop keeps the engine invariant |
| Session.FrameScoresGrow | Pop_Block.py:927-937 | a pass without a restart never lowers score, lines, level or combo |
| PopBlock.GameGrid.constructor | Pop_Block.py:222-229 | a new grid is an empty well-formed board of the given size |
| PopBlock.GameGrid.Clear | Pop_Block.py:231-233 | clearing makes every cell empty and keeps the dimensions |
| PopBlock.GameGrid.IsCollision | Pop_Block.py:274-292 | the nested scan answers exactly whether the piece shifted by (dx, dy) collides |
| PopBlock.GameGrid.PlaceTetromino | Pop_Block.py:235-252 | the nested scan writes the grid and answers exactly as the placement function does, keeping the grid well formed |
| PopBlock.GameGrid.CheckLineCompletions | Pop_Block.py:254-262 | the scan returns the full rows, and a row is listed exactly when it is full |
| PopBlock.GameGrid.RemoveLines | Pop_Block.py:264-272 | the sort, delete and insert loop leaves the grid the row-removal function gives |
| PopBlock.ActiveTetromino.constructor | Pop_Block.py:298-317 | a new piece holds its kind's definition at rotation 0 and position [4, 0], with its kind's colour code |
| PopBlock.ActiveTetromino.Rotate | Pop_Block.py:328-341 | the in-place rotation leaves the piece and result that the rotation function gives |
| PopBlock.ActiveTetromino.Move | Pop_Block.py:343-348 | the in-place move leaves the piece and result that the move function gives |
| PopBlock.ActiveTetromino.HardDrop | Pop_Block.py:350-353 | the `while move(0, 1)` loop stops at the row where the hard-drop function stops |
| PopBlock.ScoreManager.constructor | Pop_Block.py:358-363 | a new score manager holds the initial scores |
| PopBlock.ScoreManager.AddShapeScore | Pop_Block.py:365-368 | scoring a piece adds the score for its current matrix's cell count |
| PopBlock.ScoreManager.AddLineClearScore | Pop_Block.py:370-390 | the fields become the line-clear function's result |
| PopBlock.ScoreManager.Reset | Pop_Block.py:392-394 | reset restores the initial scores |
| PopBlock.Constructed | Pop_Block.py:702-748 | the engine as `__init__` builds it, before its first initialisation, has a well-formed grid and a complete sound catalogue |
| PopBlock.ConstructedInv | Pop_Block.py:702-770 | the constructed engine, once initialised, satisfies the engine invariant |
| PopBlock.GameEngine.constructor | Pop_Block.py:702-748 | a new engine is the constructed engine after initialising, and satisfies the invariant |
| PopBlock.GameEngine.Initialize | Pop_Block.py:750-770 | restarting leaves the state the initialise function gives |
| PopBlock.GameEngine.OnLineCleared | Pop_Block.py:784-794 | the line-cleared handler scores the lines and sets the fall speed for the new level |
| PopBlock.GameEngine.OnGameOver | Pop_Block.py:796-798 | the game-over handler sets the flag and nothing else |
| PopBlock.GameEngine.GetNextTetromino | Pop_Block.py:800-816 | the fields become the spawn function's result |
| PopBlock.GameEngine.LockCurrentTetromino | Pop_Block.py:855-882 | scoring, placing, clearing and spawning in place leave the state the lock function gives |
| PopBlock.GameEngine.UpdateGameLogic | Pop_Block.py:884-893 | one frame of game logic leaves the state the frame function gives |
| PopBlock.GameEngine.Steer | Pop_Block.py:836-848 | the movement and rotation commands leave the piece that the steering functions give |
| PopBlock.GameEngine.HandleInput | Pop_Block.py:818-853 | one frame's input leaves the state the input function gives |
| PopBlock.GameEngine.RunFrame | Pop_Block.py:935-937 | `_handle_input()` followed by `_update_game_logic()` in place leaves the state of one pass of the main loop |

## Left out

- Drawing, windows, fonts, audio, the mouse and key polling are left out.
  This covers `RenderSystem`, `InputHandler`, `MouseHandler`,
  `_setup_audio` and `_render`. They do I/O and do not change the game
  state. Of `run`, only the game-state part of its loop is modelled: one pass
  applies `_handle_input` and then `_update_game_logic`
  (`Session.Frame`, `PopBlock.GameEngine.RunFrame`). The endless loop around
  it, the event polling, drawing, the frame clock and `main` are left out.
- Quitting (`pg.quit`, `sys.exit`) is not modelled. The commands of a frame
  have no quit action.
- `create_random` is not modelled as a function, because its choice is
  random. Its results come in as the parameters `refill` and `next`.
- Scoring.AddShapeScore, Scoring.AddLineClearScore: the multiplier is exact
  tenths, not a float. Scores equal the source's `int(x * multiplier)` as long
  as the float product does not round below a whole number. This does happen
  in play from level 5 on. After ten four-line clears (40 lines, level 5,
  combo 10) the next four-line clear has x = 800 + 10 * 50 = 1300. In double
  precision 1300 * 1.4 is 1819.9999999999998, so the source adds 1819 where
  the model adds 1820.
- The `EventDispatcher` and its event values are not modelled. The two
  listeners are called directly where events are dispatched.
  - On the first initialisation no listener is registered yet. This makes no
    difference, because `_initialize_game` clears `game_over` afterwards.
  - Event timestamps are not modelled.
- `remove_lines` sorts the caller's list in place; the model sorts a copy.
  The only caller uses the list's length, which a sort does not change.
- PopBlock.GameGrid.RemoveLines: requires row indices within the grid.
  Python would wrap negative indices and raise an error for indices that are
  too large. The only caller passes rows from `check_line_completions`.
- `ActiveTetromino` keeps the definition it was given, not a reference to
  the factory. The engine reads back only the definition. The renderer
  (Pop_Block.py:550) also reads the factory through the piece, but only for
  drawing, which is left out.
- `get_color_by_code`, the colour palette and `get_color_code_mapping` are
  not modelled. They serve drawing only.
- PopBlock.GameEngine.HandleInput: requires the current piece's definition
  to be well shaped. In Python a hard drop with a shape of no cells would
  loop forever; every catalogue piece has four cells.
- The unused constants of `GameParameters` are not modelled.
  `PREVIEW_SHAPES_COUNT` is 4, but the engine draws 10 kinds.
- PopBlock.GameEngine.RunFrame: requires the engine invariant, so that the
  input step leaves a well-formed state for the game-logic step. Every
  constructed engine satisfies the invariant (`PopBlock.ConstructedInv`), and
  each pass keeps it (`Session.FrameKeepsInv`).
