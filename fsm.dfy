/** The table-driven state machine: for each (state, action) pair, the
    handler userInput runs, or none. */
module Fsm {
  import opened TetrisTypes

  /** The handlers the table can name. */
  datatype Handler = StartGame | PauseGame | RemoveParameters | MoveLeft | MoveRight | MoveDown | RotateFigure

  /** The row of a state, in the order of the state enumeration. */
  function StateIndex(s: GameState): (i: nat)
    ensures i < STATES_COUNT
  {
    match s
    case START => 0
    case GAME => 1
    case GAME_OVER => 2
  }

  /** The column of an action, in the order of the action enumeration. */
  function ActionIndex(a: UserAction): (i: nat)
    ensures i < SIGNALS_COUNT
  {
    match a
    case Start => 0
    case Pause => 1
    case Terminate => 2
    case Left => 3
    case Right => 4
    case Up => 5
    case Down => 6
    case Action => 7
  }

  /** One row per state (START, GAME, GAME_OVER), one column per action. */
  const FSM_TABLE: seq<seq<Option<Handler>>> := [
    [Some(StartGame), None, Some(RemoveParameters), None, None, None, None, None],
    [None, Some(PauseGame), Some(RemoveParameters), Some(MoveLeft), Some(MoveRight), None, Some(MoveDown), Some(RotateFigure)],
    [Some(StartGame), None, Some(RemoveParameters), None, None, None, None, None]
  ]

  /** The table entry for a state and an action. */
  function Lookup(s: GameState, a: UserAction): (h: Option<Handler>)
  {
    FSM_TABLE[StateIndex(s)][ActionIndex(a)]
  }

  /** Start acts only outside a running game; Terminate acts in every state;
      Pause, Left, Right, Down and Action act only in a running game; Up never
      acts. Each action, when it acts, runs the handler named after it. */
  lemma TableRouting(s: GameState, a: UserAction)
    ensures Lookup(s, Start) == (if s == GAME then None else Some(StartGame))
    ensures Lookup(s, Terminate) == Some(RemoveParameters)
    ensures Lookup(s, Up) == None
    ensures a in {Pause, Left, Right, Down, Action} ==> (Lookup(s, a).Some? <==> s == GAME)
    ensures Lookup(GAME, Pause) == Some(PauseGame)
    ensures Lookup(GAME, Left) == Some(MoveLeft) && Lookup(GAME, Right) == Some(MoveRight)
    ensures Lookup(GAME, Down) == Some(MoveDown) && Lookup(GAME, Action) == Some(RotateFigure)
  {
  }
}
