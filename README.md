# Falling-block game engine, modelled in Dafny

This project models the rules engine of a falling-block ("Tetris") game. The
engine keeps one session:

- a 26 × 16 playing field of integers (0 empty, 1 wall, `type + 1` a placed
  block), with a border three cells thick at the sides and the bottom;
- a 2 × 4 preview of the next piece;
- the score, the high score, the level, the speed and the pause flag;
- the game state (`START`, `GAME`, `GAME_OVER`) and an active flag;
- the figure: the type of the next piece, and the type, rotation and pivot
  (x column, y row) of the active piece.

User actions go through a 3 × 8 state-machine table to the handlers:

- `startGame`, `pauseGame` and `removeParameters`;
- the transactional moves `moveLeft`, `moveRight` and `rotateFigure`. Each one
  erases the piece, changes its pose, tests for collision, reverts when the
  test fails, and draws the piece again;
- the hard drop `moveDown`.

The periodic `shiftFigure` lowers the piece by one row, or attaches it where it
stands. `attachFigure` removes full rows and updates the score, high score,
level and speed. It then spawns the previewed piece and decides whether the game
is over.

The project has eight modules, one per file:

- `TetrisTypes` (`types.dfy`): the constants, enumerations and records of the
  header.
- `Field` (`field.dfy`): the field as a value. It covers the border, writing a
  set of cells (stamp and erase) and the free-cells test.
- `Geometry` (`geometry.dfy`): the piece table and the exact quarter-turn map
  that replaces the floating-point rotation formula. It also covers poses and
  their cells, the spawn pose, and the preview bitmap.
- `LineClear` (`line_clear.dfy`): the row-removal scan of `attachFigure`.
- `Scoring` (`scoring.dfy`): the reward table and the level formula.
- `Fsm` (`fsm.dfy`): the state-machine table.
- `Rules` (`rules.dfy`): every handler as a transition on a whole-session value
  `Game`, with the session invariant and the lemmas about the transitions.
- `Engine` (`session.dfy`): the class `Session`, whose fields are the session's
  state and whose grids are `array2<int>`.
  - Every handler is a method that updates the fields and the arrays in place,
    with the loops of tetris_logic.c.
  - Each method is proved to leave the session equal to what the matching
    `Rules` transition gives. `Snapshot` reads the object as a `Game`, with the
    field array read as the ghost grid `b`.

## Model

| member | source | states |
|---|---|---|
| Field.EmptyFieldShape | src/brick_game/tetris/tetris_logic.c:291-301 | The reset field holds the wall value exactly where row > 22, col < 3 or col > 12, and is empty everywhere else; rows 0 to 2 are open between the side walls. |
| Engine.Session.ResetField | src/brick_game/tetris/tetris_logic.c:291-301 | The field array ends up holding the reset field, cell by cell, after the nested loops. |
| Field.PaintAt | src/brick_game/tetris/tetris_logic.c:102-116 | Writing a value into a list of cells sets exactly those cells to the value and leaves every other cell of the field unchanged. |
| Field.EraseStampRoundTrip | src/brick_game/tetris/tetris_logic.c:102-153 | On a field where the piece is drawn, erasing its cells and drawing it again gives back the same field. |
| Field.LiftAndDraw | src/brick_game/tetris/tetris_logic.c:102-153 | Erasing a piece and drawing it at interior cells keeps the walls, leaves the new cells holding the piece's value, and changes no cell outside the old and new cells. |
| Engine.Session.DrawCells | src/brick_game/tetris/tetris_logic.c:108-115 | The cell-writing loop of clearFigure and addFigure leaves the array holding the field with exactly those cells overwritten. |
| Engine.Session.ClearFigure | src/brick_game/tetris/tetris_logic.c:102-116 | clearFigure empties exactly the active piece's four cells. |
| Engine.Session.AddFigure | src/brick_game/tetris/tetris_logic.c:139-153 | addFigure writes `type + 1` into exactly the active piece's four cells. |
| Engine.Session.CellsFree | src/brick_game/tetris/tetris_logic.c:124-136 | The collision loop, which stops at the first occupied cell, returns true exactly when every listed cell is empty; it changes nothing. |
| Engine.Session.IsFigureNotCollide | src/brick_game/tetris/tetris_logic.c:118-137 | isFigureNotCollide returns true exactly when all four cells of the current pose are empty, and modifies nothing. |
| Geometry.TurnIsRotationFormula | src/brick_game/tetris/tetris_logic.c:109-112 | The exact quarter-turn map is the rotation formula of tetris_logic.c with the exact cosine and sine of a multiple of a right angle. |
| Geometry.PieceShape | src/brick_game/tetris/tetris_logic.c:26-34 | In every rotation each piece has four pairwise distinct offsets, one of them the pivot (0, 0), all within two cells of the pivot. In every rotation the row offsets, and likewise the column offsets, differ by at most 3, so the piece fits a 4 x 4 bounding box. |
| Geometry.PivotIsCell | src/brick_game/tetris/tetris_logic.c:26-34 | The pivot is always one of the piece's own cells. |
| Geometry.OneStepStaysInField | src/brick_game/tetris/tetris_logic.c:108-115 | From a pose whose cells are interior and whose pivot row is at least 2, a move left, right or down, or a turn, indexes only inside the 26 × 16 array. |
| Geometry.TurnRoundTrip | src/brick_game/tetris/tetris_logic.c:372-389 | Undoing a turn with the revert formula gives back the pose; four turns make a full circle; a turn always changes the rotation. |
| Geometry.TurnIsQuarterTurn | src/brick_game/tetris/tetris_logic.c:109-112 | Each turn maps every offset (row, col) to (-col, row), a quarter turn counter-clockwise on screen. |
| Geometry.HomeAboveScreen | src/brick_game/tetris/tetris_logic.c:217-224 | A spawned piece (x = 8, y = 2, rotation 0) lies in rows 1 and 2, above the first visible row 3, and in columns 7 to 10; the pose one row lower is inside the field. |
| Geometry.PreviewAt | src/brick_game/tetris/tetris_logic.c:226-240 | Preview cell (i, j) holds `type + 1` exactly when (i - 1, j - 1) is one of the piece's listed pairs, and is empty otherwise. |
| Geometry.PreviewMatchesSpawn | src/brick_game/tetris/tetris_logic.c:217-240 | A preview cell (i, j) is filled exactly when field cell (i + 1, j + 7) belongs to the piece as it spawns. |
| Engine.Session.GenerateRandomFigure | src/brick_game/tetris/tetris_logic.c:226-240 | With the random draw as input, the preview array holds the drawn piece's preview bitmap and the draw is returned. |
| Engine.Session.SpawnNextFigure | src/brick_game/tetris/tetris_logic.c:217-224 | The previewed piece becomes active at its home pose and is drawn there; the preview shows the new draw. The session equals `Rules.Spawn`. |
| Rules.Spawn | src/brick_game/tetris/tetris_logic.c:217-224 | The spawn keeps the field's shape and the allocation, and leaves the state unchanged. |
| Rules.SpawnKeepsInv | src/brick_game/tetris/tetris_logic.c:217-224 | A spawn onto a field with intact walls yields a live session whose active pose is the home pose of the previewed piece. |
| Rules.AttemptSpec | src/brick_game/tetris/tetris_logic.c:325-351 | In a transactional step, the piece moves exactly when the target cells are free once it is lifted. Walls survive. The piece is drawn at the kept pose. Cells it neither left nor entered are unchanged. A refused step changes nothing. |
| Rules.MoveLeft | src/brick_game/tetris/tetris_logic.c:325-337 | moveLeft keeps the session invariant and the game state. |
| Rules.MoveRight | src/brick_game/tetris/tetris_logic.c:339-351 | moveRight keeps the session invariant and the game state. |
| Rules.RotateFigure | src/brick_game/tetris/tetris_logic.c:372-390 | rotateFigure keeps the session invariant, so the rotation stays within 0..3, and keeps the game state. |
| Rules.StepSemantics | src/brick_game/tetris/tetris_logic.c:325-351 | When the piece fits at the target pose once lifted, the successor session is the old one with the piece erased and redrawn at the target and the piece's rotation and position set to the target; nothing else changes. Otherwise the whole session is unchanged. |
| Rules.MoveSemantics | src/brick_game/tetris/tetris_logic.c:325-390 | Unpaused, each of moveLeft, moveRight and rotateFigure yields the whole successor session. If the piece fits at x - 1, x + 1 or the next rotation once lifted, the piece is erased and redrawn there and only x or the rotation changes. Otherwise the session is unchanged. |
| Rules.PausedMovesAreNoOps | src/brick_game/tetris/tetris_logic.c:325-390 | While paused, moveLeft, moveRight, rotateFigure and moveDown change nothing. |
| Engine.Session.MoveLeft | src/brick_game/tetris/tetris_logic.c:325-337 | The in-place moveLeft leaves the session equal to `Rules.MoveLeft` of the old session. |
| Engine.Session.MoveRight | src/brick_game/tetris/tetris_logic.c:339-351 | The in-place moveRight leaves the session equal to `Rules.MoveRight` of the old session. |
| Engine.Session.RotateFigure | src/brick_game/tetris/tetris_logic.c:372-390 | The in-place rotateFigure, with the forward and revert formulas of tetris_logic.c, leaves the session equal to `Rules.RotateFigure` of the old session. |
| Rules.DropFrom | src/brick_game/tetris/tetris_logic.c:358-365 | The drop reaches a legal pose in the same column and rotation, at or below the start. |
| Rules.DropLandsAtLastFreeRow | src/brick_game/tetris/tetris_logic.c:358-365 | The drop stops at the last row reachable by free single steps: the piece fits at every row passed and not one row below the landing row. |
| Rules.DroppedSpec | src/brick_game/tetris/tetris_logic.c:353-370 | The hard drop keeps the walls and leaves the piece drawn at a legal pose in the same column and rotation, where it fits and from which it cannot move down. |
| Engine.Session.HardDrop | src/brick_game/tetris/tetris_logic.c:353-367 | The while loop of moveDown leaves the field and pose equal to the rules' drop. |
| Rules.MoveDown | src/brick_game/tetris/tetris_logic.c:353-370 | moveDown, which drops and attaches, keeps the session invariant. |
| Engine.Session.MoveDown | src/brick_game/tetris/tetris_logic.c:353-370 | The in-place moveDown leaves the session equal to `Rules.MoveDown` of the old session. |
| Rules.Shift | src/brick_game/tetris/tetris_logic.c:88-100 | shiftFigure keeps the session invariant. |
| Rules.ShiftSemantics | src/brick_game/tetris/tetris_logic.c:88-100 | If the piece fits one row lower once lifted, shiftFigure moves it there and changes nothing but the field and the pose; otherwise the piece is attached where it stands. |
| Engine.Session.ShiftFigure | src/brick_game/tetris/tetris_logic.c:88-100 | The in-place shiftFigure leaves the session equal to `Rules.Shift` of the old session. |
| LineClear.CountBlocksFull | src/brick_game/tetris/tetris_logic.c:160-167 | The occupied-cell count of a row equals the width of the range exactly when every cell in it is occupied. |
| Engine.Session.CountRowBlocks | src/brick_game/tetris/tetris_logic.c:160-165 | The counting loop returns the number of occupied interior cells of the row. |
| LineClear.ShiftDownRowFull | src/brick_game/tetris/tetris_logic.c:169-174 | After a row is removed, each row from 2 to the removed row is full exactly when the row above it was. |
| Engine.Session.ShiftRowsDown | src/brick_game/tetris/tetris_logic.c:169-174 | The row-shift loop copies each row from 2 up to the removed row from the row above, over columns 3..12 only. |
| LineClear.ShiftDownDropsFullRow | src/brick_game/tetris/tetris_logic.c:167-175 | If row 1 is not full, removing a full row lowers the number of full rows in 2..row by one and leaves row 1 not full. This bounds the re-test loop. |
| LineClear.FullTopRowsRepeat | src/brick_game/tetris/tetris_logic.c:158-178 | When rows 1 through the scanned row are all full, removing the scanned row leaves them all full again, so the scan repeats forever. |
| LineClear.ClearLinesSpec | src/brick_game/tetris/tetris_logic.c:156-179 | After the scan no row in 3..22 is full. Walls and rows 0 and 1 are unchanged. The number removed is every full row of 3..22, plus row 2 if it was full and any row was removed. |
| LineClear.ClearLinesRows | src/brick_game/tetris/tetris_logic.c:156-179 | What the removal means for rows 2..22, over the interior columns. Say n rows are removed. Then the rows of 2..22 that are not full keep their order and end at the bottom, and the n rows above them are copies of row 1. When n > 0, n is the number of full rows in 2..22; a lone full row 2 is kept (see `LineClear.ClearKeepsFullRowTwo`). When nothing is removed the rows are unchanged. |
| LineClear.ClearFromRows | src/brick_game/tetris/tetris_logic.c:160-178 | The scan from a row settles rows 2 to that row in the same sense. It removes something exactly when one of rows 3 to that row is full. |
| LineClear.KeptCount | src/brick_game/tetris/tetris_logic.c:156-179 | The rows that are not full number the rows of the range minus its full rows. |
| LineClear.ClearKeepsFullRowTwo | src/brick_game/tetris/tetris_logic.c:156-179 | Row 2 is never tested in place: when it is the only full row, nothing is removed and it stays full. |
| Engine.Session.ClearFilledRows | src/brick_game/tetris/tetris_logic.c:156-179 | The scan's nested loops, with the `cycle` re-test, leave the field equal to the compacted field and return the number of rows removed. |
| Scoring.Award | src/brick_game/tetris/tetris_logic.c:181-189 | The reward is never negative, and is positive exactly for 1 to 4 rows; any other count adds nothing. |
| Scoring.AwardRewardsCombos | src/brick_game/tetris/tetris_logic.c:181-189 | Removing more rows at once pays more, and more than removing the same number of rows one at a time. |
| Scoring.LevelFor | src/brick_game/tetris/tetris_logic.c:198-202 | For a score of at least 0 the level is in 1..10. It is 10 exactly from 5400 points on; below that, level - 1 is the number of whole 600-point thresholds passed. |
| Scoring.LevelMonotone | src/brick_game/tetris/tetris_logic.c:198-202 | A higher score never gives a lower level. |
| Engine.Session.Reward | src/brick_game/tetris/tetris_logic.c:181-202 | The score rises by the reward for the rows removed. A passed high score is raised and stored. Level follows the score, and speed equals level. |
| Rules.InvBounds | src/brick_game/tetris/tetris_logic.h:30-42 | In every session keeping the invariant, level and speed are in 1..10 and the rotation is in 0..3. |
| Rules.Scored | src/brick_game/tetris/tetris_logic.c:156-202 | The bookkeeping half of attachFigure keeps the counters' invariant, the field's shape and walls, the state and the figure. |
| Rules.Attach | src/brick_game/tetris/tetris_logic.c:155-215 | attachFigure keeps the session invariant. |
| Rules.AttachScoring | src/brick_game/tetris/tetris_logic.c:156-202 | attachFigure's new score is the old score plus the reward for the rows removed. The high score becomes the larger of the two and is stored. Level follows the score and speed equals level. The pause flag is kept. |
| Rules.AttachSpawns | src/brick_game/tetris/tetris_logic.c:204-214 | The previewed piece becomes active and the new draw is previewed. It moves to y = 3 when it fits there once its home cells are erased; otherwise it stays at home, drawn over whatever those cells held, and the game is over. |
| Rules.FilledPivotCellForcesGameOver | src/brick_game/tetris/tetris_logic.c:204-214 | A block at row 3, column 8 after row removal always ends the game. |
| Rules.Land | src/brick_game/tetris/tetris_logic.c:205-214 | The game-over test keeps the session invariant. |
| Rules.LandSpec | src/brick_game/tetris/tetris_logic.c:205-214 | The game-over test moves the piece one row down and keeps the state when the piece fits there once lifted; otherwise the piece stays and the state becomes GAME_OVER. Only the field, the pose and the state change. |
| Engine.Session.AttachFigure | src/brick_game/tetris/tetris_logic.c:155-215 | The in-place attachFigure leaves the session equal to `Rules.Attach` of the old session. |
| Rules.PauseGame | src/brick_game/tetris/tetris_logic.c:392-394 | pauseGame flips the pause flag, changes nothing else and keeps the invariant. |
| Engine.Session.PauseGame | src/brick_game/tetris/tetris_logic.c:392-394 | The in-place pauseGame leaves the session equal to `Rules.PauseGame` of the old session. |
| Rules.StartGame | src/brick_game/tetris/tetris_logic.c:303-323 | startGame yields a live session in state GAME with score 0, level and speed 1, the stored high score and the pause flag unchanged. The previewed piece is drawn at its home pose on a fresh field, and the new draw is previewed. |
| Engine.Session.StartGame | src/brick_game/tetris/tetris_logic.c:303-323 | The in-place startGame leaves the session equal to `Rules.StartGame` of the old session. |
| Rules.RemoveParameters | src/brick_game/tetris/tetris_logic.c:256-279 | removeParameters releases both grids, sets GAME_OVER and deactivates the session, keeping the invariant; it is also defined on a released session. |
| Engine.Session.RemoveParameters | src/brick_game/tetris/tetris_logic.c:256-279 | The in-place removeParameters nulls both arrays and leaves the session equal to `Rules.RemoveParameters` of the old session. |
| Rules.Initialize | src/brick_game/tetris/tetris_logic.c:36-71 | initializeParameters yields a live session: state START, active, not paused, score 0, level and speed 1, an empty bordered field, the preview of the first draw, and the stored high score (0 when there is none). |
| Engine.Session.Init | src/brick_game/tetris/tetris_logic.c:36-71 | The constructor allocates both arrays and leaves the session equal to `Rules.Initialize`. |
| Fsm.TableRouting | src/brick_game/tetris/tetris_logic.c:13-19 | Start acts only in START and GAME_OVER. Terminate acts in every state. Pause, Left, Right, Down and Action act only in GAME. Up never acts. Each action that acts runs the handler named after it. |
| Rules.UserInput | src/brick_game/tetris/tetris_logic.c:242-254 | userInput keeps the invariant and changes nothing when the table entry is empty. |
| Rules.UserInputRouting | src/brick_game/tetris/tetris_logic.c:242-254 | Up never changes the session. Outside GAME only Start and Terminate act, and in GAME Start does not. Terminate always releases the session, and Pause in GAME flips the pause flag. |
| Rules.ReleasedRunsOnlyFlagHandlers | src/brick_game/tetris/tetris_logic.c:256-279 | A session released by removeParameters admits exactly pauseGame and removeParameters, the handlers that touch no grid. |
| Rules.StartAfterTerminateExcluded | src/brick_game/tetris/tetris_logic.c:13-19 | After Terminate the table still routes Start to startGame, and the model does not admit that call on the released session. |
| Engine.Session.UserInput | src/brick_game/tetris/tetris_logic.c:242-254 | The in-place userInput looks up the table and leaves the session equal to `Rules.UserInput` of the old session. |

## Left out

- The high-score file is not modelled as I/O.
  - Reading it in `initializeParameters` and `startGame` is modelled by the `stored` parameter and the `storedHighScore` field, which is the `persisted` part of `Game`. That field holds the value of the external high-score store, carried in the session.
  - Creating it with 0 and writing a new high score in `attachFigure` become updates of that field.
  - The `exit(1)` taken when the file cannot be read or parsed is not modelled.
- `allocate2DArray`, its `calloc`, the out-of-memory `exit(1)` and the `free` loops of `removeParameters` are left out. Allocation is `new` and release is setting the array field to `null`.
- `rand() % FIGURES_COUNT` in `generateRandomFigure` is the `draw` parameter, a piece type in 0..6.
- The floating-point `round`/`cos`/`sin` rotation is replaced by the exact quarter-turn map `Geometry.Turn`.
  - `Geometry.TurnIsRotationFormula` shows the map is the formula of tetris_logic.c with the exact cosine and sine.
  - The rounding error of the floating-point version is not modelled.
- The static singleton `updateParameters` and the wrapper `updateCurrentState` are not modelled: the session is an explicit object. `updateCurrentState` is `Engine.Session.ShiftFigure` followed by reading the session's data.
- The `hold` argument of `userInput`, which only prints an escape character, is left out.
- The terminal front end, the entry point and the test suite are not part of this model.
- Integers are unbounded: the C `int` score cannot overflow in the model.
- `LineClear.ClearLines`, `Rules.Attach`, `Rules.Shift`, `Rules.MoveDown`, `Rules.UserInput`, `Engine.Session.AttachFigure`, `Engine.Session.ShiftFigure`, `Engine.Session.MoveDown` and `Engine.Session.UserInput` require that row 1 of the field is not full when the rows are removed.
  - When rows 1 through the scanned row are all full, the scan in tetris_logic.c never ends (`LineClear.FullTopRowsRepeat`).
  - The requirement also excludes some attachments with a full row 1 whose scan does end. An example is rows 1 and 22 as the only full rows: the scan shifts once and stops, leaving row 2 full.
  - Attachments with a full row 1 are not modelled. `Rules.UserInput` and `Engine.Session.UserInput` carry this requirement through the Down action, which attaches a piece.
- `Rules.UserInput` and `Engine.Session.UserInput` do not admit Start on a session released by Terminate (`Rules.StartAfterTerminateExcluded`).
  - `removeParameters` frees both grids, sets the field pointer to NULL and sets the state to `GAME_OVER` (tetris_logic.c:256-279).
  - The table routes Start in `GAME_OVER` to `startGame` (tetris_logic.c:13-19). Its `resetField` then writes through the NULL field (tetris_logic.c:291-301), which is undefined behaviour.
- The active piece is not set by `initializeParameters`. The model gives it the pose of the previewed piece at home, not drawn on the field, which is where `startGame` will put it.
- The header documents `startGame` as entering `START`; the code enters `GAME`, and the model follows the code.
- The header calls the turn clockwise. With rows growing downward the formula turns the piece counter-clockwise on screen, and the model follows the formula.
- Writing a cell outside the array is undefined in C. `Field.Paint` and `Geometry.Mark` skip such a cell, but every write the model makes is proved to be inside the array.
- In `Engine.Session.Snapshot` the preview array is read as the preview of `kindNext`; the session's validity requires the array to hold exactly that bitmap.
- In `attachFigure` the game state is set to `GAME_OVER` before the piece is redrawn; the model's `LandTest` sets it after. The two writes touch different parts of the session, so the end state is the same.
