/** Constants, enumerations and records of the falling-block rules engine:
    the declarations of tetris_logic.h, as values. */
module TetrisTypes {

  // Field and preview dimensions.
  const FIELD_WIDTH := 16
  const FIELD_HEIGHT := 26
  const FIGURE_WIDTH := 4
  const FIGURE_HEIGHT := 2
  const BORDER_SIZE := 3

  // Cell values: empty, and the value resetField writes into the border.
  const PIXEL_EMPTY := 0
  const PIXEL_WALL := 1

  const STATES_COUNT := 3
  const SIGNALS_COUNT := 8
  const FIGURES_COUNT := 7

  const SPEED_MIN := 1
  const SPEED_MAX := 10
  const LEVEL_MIN := 1
  const LEVEL_MAX := 10
  const LEVEL_THRESHOLD := 600

  const SCORE_ROWS_1 := 100
  const SCORE_ROWS_2 := 300
  const SCORE_ROWS_3 := 700
  const SCORE_ROWS_4 := 1500

  const ROTATION_MIN := 0
  const ROTATION_MAX := 3

  /** An index into the table of seven pieces. */
  type Kind = k: int | 0 <= k < FIGURES_COUNT

  /** The number of quarter turns of the active piece. */
  type Rotation = r: int | ROTATION_MIN <= r <= ROTATION_MAX

  /** The rows of the state machine table. */
  datatype GameState = START | GAME | GAME_OVER

  /** The columns of the state machine table: the user's signals. */
  datatype UserAction = Start | Pause | Terminate | Left | Right | Up | Down | Action

  datatype Option<T> = None | Some(value: T)

  /** A grid of cell values, addressed as grid[row][column]. The playing field
      has FIELD_HEIGHT rows of FIELD_WIDTH cells; the preview has FIGURE_HEIGHT
      rows of FIGURE_WIDTH cells. */
  type Grid = seq<seq<int>>

  /** The game data; a grid is None once it has been released. */
  datatype GameInfo = GameInfo(
    field: Option<Grid>,
    next: Option<Grid>,
    score: int,
    highScore: int,
    level: int,
    speed: int,
    pause: bool)

  /** The active piece (kind, rotation, pivot column x, pivot row y) and the
      kind of the piece shown in the preview. */
  datatype Figure = Figure(kindNext: Kind, kind: Kind, rotation: Rotation, x: int, y: int)

  /** The whole session. `persisted` is the high score held by the external
      store, as far as the session has read or written it. */
  datatype Game = Game(
    data: GameInfo,
    state: GameState,
    isActive: bool,
    figure: Figure,
    persisted: int)
}
