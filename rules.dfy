/** The rules engine as transitions on a whole-session value: every handler
    of the state machine, the periodic shift, the attachment of a landed piece
    and the session lifecycle. The session class refines each of these. */
module Rules {
  import opened TetrisTypes
  import opened Field
  import opened Geometry
  import opened LineClear
  import opened Scoring
  import Fsm

  /** The pose of the active piece. */
  function PoseOf(f: Figure): Pose {
    Pose(f.kind, f.rotation, f.x, f.y)
  }

  /** The figure record with the active piece moved to pose p. */
  function Placed(f: Figure, p: Pose): Figure {
    Figure(f.kindNext, p.kind, p.rotation, p.x, p.y)
  }

  /** A pose the active piece may hold: every cell inside the field and off
      the border, pivot at row 2 or below. */
  predicate Legal(p: Pose) {
    InInterior(Cells(p)) && p.y >= 2
  }

  predicate Allocated(g: Game) {
    g.data.field.Some? && g.data.next.Some?
  }

  function Board(g: Game): Grid
    requires g.data.field.Some?
  {
    g.data.field.value
  }

  /** The counters, the stored high score and the allocation flags. */
  ghost predicate ScalarsOk(g: Game) {
    && g.data.score >= 0
    && g.data.level == LevelFor(g.data.score)
    && g.data.speed == g.data.level
    && g.persisted == g.data.highScore
    && (g.data.field.Some? <==> g.data.next.Some?)
    && (g.isActive <==> g.data.field.Some?)
    && (!g.isActive ==> g.state == GAME_OVER)
    && (g.data.next.Some? ==> g.data.next.value == PreviewOf(g.figure.kindNext))
  }

  /** The field keeps its shape and walls, the active piece sits in a legal
      pose, and outside START the piece is drawn on the field. */
  ghost predicate BoardOk(b: Grid, p: Pose, s: GameState) {
    && IsBoard(b) && WallsIntact(b) && Legal(p)
    && (s != START ==> Holds(b, Cells(p), Color(p.kind)))
  }

  /** The session invariant. */
  ghost predicate Inv(g: Game) {
    ScalarsOk(g) && (g.data.field.Some? ==> BoardOk(Board(g), PoseOf(g.figure), g.state))
  }

  /** A live session: the invariant holds and both grids are allocated. */
  ghost predicate Ready(g: Game) {
    Inv(g) && Allocated(g)
  }

  /** Level and speed stay in 1..10 and the rotation in 0..3 in every
      session that keeps the invariant. */
  lemma InvBounds(g: Game)
    requires Inv(g)
    ensures LEVEL_MIN <= g.data.level <= LEVEL_MAX && SPEED_MIN <= g.data.speed <= SPEED_MAX
    ensures ROTATION_MIN <= g.figure.rotation <= ROTATION_MAX
  {
  }

  /** The result of one transactional step from pose p towards pose q. */
  datatype Placement = Placement(board: Grid, pose: Pose, moved: bool)

  /** Erase the piece at p, test q on the erased field, keep q if it is free
      and fall back to p otherwise, and draw the piece at the kept pose. */
  function Attempt(b: Grid, p: Pose, q: Pose): (r: Placement)
    requires IsBoard(b) && InField(Cells(p)) && InField(Cells(q)) && q.kind == p.kind
    ensures IsBoard(r.board)
  {
    var erased := Paint(b, Cells(p), PIXEL_EMPTY);
    var moved := Free(erased, Cells(q));
    var kept := if moved then q else p;
    Placement(Paint(erased, Cells(kept), Color(kept.kind)), kept, moved)
  }

  /** A step moves exactly when the target cells are free once the piece is
      lifted; the walls survive; the piece ends up drawn at an interior pose;
      cells the piece neither left nor entered keep their value; and a refused
      step on a field where the piece was drawn changes nothing. */
  lemma AttemptSpec(b: Grid, p: Pose, q: Pose)
    requires IsBoard(b) && WallsIntact(b) && Legal(p) && InField(Cells(q)) && q.kind == p.kind
    ensures var r := Attempt(b, p, q);
      && (r.moved <==> Free(Paint(b, Cells(p), PIXEL_EMPTY), Cells(q)))
      && r.pose == (if r.moved then q else p)
      && WallsIntact(r.board) && InInterior(Cells(r.pose))
      && Holds(r.board, Cells(r.pose), Color(p.kind))
      && (forall row, col :: InBounds(row, col) && (row, col) !in Cells(p) && (row, col) !in Cells(r.pose) ==>
            r.board[row][col] == b[row][col])
      && (!r.moved && Holds(b, Cells(p), Color(p.kind)) ==> r.board == b)
  {
    var from, to, v := Cells(p), Cells(q), Color(p.kind);
    var erased := Paint(b, from, PIXEL_EMPTY);
    PaintKeepsWalls(b, from, PIXEL_EMPTY);
    if Free(erased, to) {
      FreeCellsAreInterior(erased, to);
      LiftAndDraw(b, from, to, v);
    } else {
      LiftAndDraw(b, from, from, v);
      if Holds(b, from, v) {
        EraseStampRoundTrip(b, from, v);
      }
    }
  }

  /** Replace the field and the active pose by the outcome of a step. */
  function Commit(g: Game, a: Placement): Game
  {
    g.(data := g.data.(field := Some(a.board)), figure := Placed(g.figure, a.pose))
  }

  /** A step outcome that satisfies the board part of the invariant keeps
      the whole invariant. */
  lemma CommitKeepsInv(g: Game, a: Placement, s: GameState)
    requires Ready(g) && BoardOk(a.board, a.pose, s)
    ensures Ready(Commit(g, a).(state := s))
  {
    var g' := Commit(g, a).(state := s);
    assert PoseOf(g'.figure) == a.pose;
    assert g'.figure.kindNext == g.figure.kindNext;
  }

  /** One transactional step of the active piece towards q. */
  function Step(g: Game, q: Pose): (g': Game)
    requires Ready(g) && InField(Cells(q)) && q.kind == g.figure.kind && q.y >= g.figure.y
    ensures Ready(g') && g'.state == g.state
  {
    var p := PoseOf(g.figure);
    var a := Attempt(Board(g), p, q);
    AttemptSpec(Board(g), p, q);
    assert BoardOk(a.board, a.pose, g.state);
    CommitKeepsInv(g, a, g.state);
    Commit(g, a)
  }

  /** moveLeft: unless paused, one column to the left if the cells are free. */
  function MoveLeft(g: Game): (g': Game)
    requires Ready(g)
    ensures Ready(g') && g'.state == g.state
  {
    if g.data.pause then g
    else
      var p := PoseOf(g.figure);
      OneStepStaysInField(p);
      Step(g, MovedLeft(p))
  }

  /** moveRight: unless paused, one column to the right if the cells are free. */
  function MoveRight(g: Game): (g': Game)
    requires Ready(g)
    ensures Ready(g') && g'.state == g.state
  {
    if g.data.pause then g
    else
      var p := PoseOf(g.figure);
      OneStepStaysInField(p);
      Step(g, MovedRight(p))
  }

  /** rotateFigure: unless paused, one quarter turn if the cells are free. */
  function RotateFigure(g: Game): (g': Game)
    requires Ready(g)
    ensures Ready(g') && g'.state == g.state
  {
    if g.data.pause then g
    else
      var p := PoseOf(g.figure);
      OneStepStaysInField(p);
      Step(g, Turned(p))
  }

  /** The step one row down, as the periodic shift and the attachment try it. */
  function Fall(g: Game): (a: Placement)
    requires Ready(g)
    ensures IsBoard(a.board)
  {
    var p := PoseOf(g.figure);
    OneStepStaysInField(p);
    Attempt(Board(g), p, MovedDown(p))
  }

  /** The one-row step of a live session, spelled out. */
  lemma FallIs(g: Game)
    requires Ready(g)
    ensures var p := PoseOf(g.figure);
      && InField(Cells(p)) && InField(Cells(MovedDown(p)))
      && Fall(g) == Attempt(Board(g), p, MovedDown(p))
  {
    OneStepStaysInField(PoseOf(g.figure));
  }

  /** A step on a field where the piece is drawn: when the piece fits at q
      once lifted, the piece is erased, redrawn at q and its record moves to
      q, and nothing else in the session changes; otherwise the session is
      unchanged. */
  lemma StepSemantics(g: Game, q: Pose)
    requires Ready(g) && g.state != START
    requires InField(Cells(q)) && q.kind == g.figure.kind && q.y >= g.figure.y
    ensures var p := PoseOf(g.figure);
      var e := Paint(Board(g), Cells(p), PIXEL_EMPTY);
      Step(g, q) == if FitsAt(e, q) then
          g.(data := g.data.(field := Some(Paint(e, Cells(q), Color(q.kind)))),
             figure := g.figure.(rotation := q.rotation, x := q.x, y := q.y))
        else g
  {
    var p := PoseOf(g.figure);
    AttemptSpec(Board(g), p, q);
    assert Placed(g.figure, p) == g.figure;
  }

  /** A lateral move or turn on a running, unpaused game: when the piece fits
      at the target once lifted, the field has it erased and redrawn there
      and only the column (or the rotation) of the piece changes; otherwise
      the whole session stays as it was. */
  lemma MoveSemantics(g: Game)
    requires Ready(g) && g.state != START && !g.data.pause
    ensures var p := PoseOf(g.figure);
      var e, v := Paint(Board(g), Cells(p), PIXEL_EMPTY), Color(p.kind);
      && MoveLeft(g) == (if FitsAt(e, MovedLeft(p)) then
           g.(data := g.data.(field := Some(Paint(e, Cells(MovedLeft(p)), v))), figure := g.figure.(x := g.figure.x - 1))
         else g)
      && MoveRight(g) == (if FitsAt(e, MovedRight(p)) then
           g.(data := g.data.(field := Some(Paint(e, Cells(MovedRight(p)), v))), figure := g.figure.(x := g.figure.x + 1))
         else g)
      && RotateFigure(g) == (if FitsAt(e, Turned(p)) then
           g.(data := g.data.(field := Some(Paint(e, Cells(Turned(p)), v))), figure := g.figure.(rotation := Turned(p).rotation))
         else g)
  {
    var p := PoseOf(g.figure);
    OneStepStaysInField(p);
    StepSemantics(g, MovedLeft(p));
    StepSemantics(g, MovedRight(p));
    StepSemantics(g, Turned(p));
  }

  /** While paused, the lateral moves, the turn and the drop change nothing. */
  lemma PausedMovesAreNoOps(g: Game, draw: Kind)
    requires Ready(g) && g.data.pause
    ensures MoveLeft(g) == g && MoveRight(g) == g && RotateFigure(g) == g && MoveDown(g, draw) == g
  {
  }

  /** The lowest pose reached from p by single free steps down on the field
      e from which the piece has been lifted. */
  function DropFrom(e: Grid, p: Pose): (q: Pose)
    requires IsBoard(e) && WallsIntact(e) && Legal(p)
    ensures Legal(q) && q == p.(y := q.y) && q.y >= p.y
    decreases FIELD_HEIGHT - p.y
  {
    OneStepStaysInField(p);
    PivotIsCell(p);
    if Free(e, Cells(MovedDown(p))) then
      FreeCellsAreInterior(e, Cells(MovedDown(p)));
      DropFrom(e, MovedDown(p))
    else p
  }

  /** The piece fits at pose p on field e: every cell inside the array and
      empty. */
  ghost predicate FitsAt(e: Grid, p: Pose)
    requires IsBoard(e)
  {
    InField(Cells(p)) && Free(e, Cells(p))
  }

  /** The drop stops at the first row whose next row down is blocked: the
      piece fits at every row passed on the way, and not one row below the
      landing pose. */
  lemma {:induction false} DropLandsAtLastFreeRow(e: Grid, p: Pose)
    requires IsBoard(e) && WallsIntact(e) && Legal(p)
    ensures !FitsAt(e, MovedDown(DropFrom(e, p)))
    ensures forall y :: p.y < y <= DropFrom(e, p).y ==> FitsAt(e, p.(y := y))
    decreases FIELD_HEIGHT - p.y
  {
    OneStepStaysInField(p);
    PivotIsCell(p);
    var d := MovedDown(p);
    if Free(e, Cells(d)) {
      FreeCellsAreInterior(e, Cells(d));
      DropLandsAtLastFreeRow(e, d);
      assert DropFrom(e, p) == DropFrom(e, d);
      forall y | p.y < y <= DropFrom(e, p).y
        ensures FitsAt(e, p.(y := y))
      {
        if y > p.y + 1 {
          assert p.(y := y) == d.(y := y);
        } else {
          assert p.(y := y) == d;
        }
      }
    } else {
      assert DropFrom(e, p) == p;
    }
  }

  /** The hard drop of the piece at p on field b: lift it, let it fall as
      far as it can, and draw it there. */
  function Drop(b: Grid, p: Pose): (a: Placement)
    requires IsBoard(b) && WallsIntact(b) && Legal(p)
    ensures IsBoard(a.board)
  {
    var e := Paint(b, Cells(p), PIXEL_EMPTY);
    PaintKeepsWalls(b, Cells(p), PIXEL_EMPTY);
    var q := DropFrom(e, p);
    Placement(Paint(e, Cells(q), Color(q.kind)), q, q.y > p.y)
  }

  /** The hard drop of a session's active piece. */
  function Dropped(g: Game): (a: Placement)
    requires Ready(g)
    ensures IsBoard(a.board)
  {
    Drop(Board(g), PoseOf(g.figure))
  }

  /** The hard drop keeps the walls and leaves the piece drawn at a legal
      pose in the same column and rotation, at or below where it was, where
      it fits and from which it cannot move down. */
  lemma DroppedSpec(g: Game)
    requires Ready(g)
    ensures var a, p := Dropped(g), PoseOf(g.figure);
      && BoardOk(a.board, a.pose, g.state) && a.pose == p.(y := a.pose.y) && a.pose.y >= p.y
      && FitsAt(Paint(Board(g), Cells(p), PIXEL_EMPTY), a.pose)
      && !FitsAt(Paint(Board(g), Cells(p), PIXEL_EMPTY), MovedDown(a.pose))
  {
    var p := PoseOf(g.figure);
    var e := Paint(Board(g), Cells(p), PIXEL_EMPTY);
    PaintKeepsWalls(Board(g), Cells(p), PIXEL_EMPTY);
    var q := DropFrom(e, p);
    LiftAndDraw(Board(g), Cells(p), Cells(q), Color(q.kind));
    DropLandsAtLastFreeRow(e, p);
    if q.y > p.y {
      assert q == p.(y := q.y);
    } else {
      assert q == p;
      PaintAt(Board(g), Cells(p), PIXEL_EMPTY);
      assert Free(e, Cells(p));
    }
  }

  /** The spawn: the previewed piece becomes the active piece at its home
      pose and is drawn there, and the preview shows the new draw. */
  function Spawn(g: Game, draw: Kind): (g': Game)
    requires Allocated(g) && IsBoard(Board(g))
    ensures Allocated(g') && IsBoard(Board(g')) && g'.state == g.state
  {
    var k := g.figure.kindNext;
    HomeAboveScreen(k);
    g.(figure := Placed(g.figure.(kindNext := draw), Home(k)),
       data := g.data.(field := Some(Paint(Board(g), Cells(Home(k)), Color(k))), next := Some(PreviewOf(draw))))
  }

  /** A spawn onto a field whose walls are intact gives a live session: the
      home pose is legal, the piece is drawn there, and the preview matches
      the newly drawn piece. */
  lemma SpawnKeepsInv(g: Game, draw: Kind)
    requires Allocated(g) && ScalarsOk(g) && IsBoard(Board(g)) && WallsIntact(Board(g))
    ensures Ready(Spawn(g, draw)) && PoseOf(Spawn(g, draw).figure) == Home(g.figure.kindNext)
  {
    var k := g.figure.kindNext;
    HomeAboveScreen(k);
    PaintKeepsWalls(Board(g), Cells(Home(k)), Color(k));
    PaintAt(Board(g), Cells(Home(k)), Color(k));
  }

  /** The game-over test after a spawn: one step down from the home pose;
      if it is refused the session is over. */
  function Land(g: Game): (g': Game)
    requires Ready(g)
    ensures Ready(g')
  {
    var p := PoseOf(g.figure);
    var a := Fall(g);
    OneStepStaysInField(p);
    AttemptSpec(Board(g), p, MovedDown(p));
    var s := if a.moved then g.state else GAME_OVER;
    assert BoardOk(a.board, a.pose, s);
    CommitKeepsInv(g, a, s);
    Commit(g, a).(state := s)
  }

  /** The game-over test commits the one-row step and ends the session
      exactly when that step is refused. */
  lemma LandCommits(g: Game)
    requires Ready(g)
    ensures var p := PoseOf(g.figure);
      && InField(Cells(p)) && InField(Cells(MovedDown(p)))
      && var a := Attempt(Board(g), p, MovedDown(p));
         Land(g) == Commit(g, a).(state := if a.moved then g.state else GAME_OVER)
  {
    OneStepStaysInField(PoseOf(g.figure));
  }

  /** The bookkeeping half of attachFigure: remove full rows, add their
      reward, raise the high score and store it, recompute level and speed. */
  function Scored(g: Game): (g': Game)
    requires Ready(g) && !RowFull(Board(g), 1)
    ensures Allocated(g') && ScalarsOk(g') && IsBoard(Board(g')) && WallsIntact(Board(g'))
    ensures g'.state == g.state && g'.figure == g.figure
  {
    var (cleared, rows) := ClearLines(Board(g));
    ClearLinesSpec(Board(g));
    var score := g.data.score + Award(rows);
    var level := LevelFor(score);
    g.(data := g.data.(field := Some(cleared), score := score,
                       highScore := if score > g.data.highScore then score else g.data.highScore,
                       level := level, speed := level),
       persisted := if score > g.data.highScore then score else g.persisted)
  }

  /** attachFigure: the bookkeeping, then the spawn of the next piece and the
      game-over test. */
  function Attach(g: Game, draw: Kind): (g': Game)
    requires Ready(g) && !RowFull(Board(g), 1)
    ensures Ready(g')
  {
    SpawnKeepsInv(Scored(g), draw);
    Land(Spawn(Scored(g), draw))
  }

  /** The outcome of the game-over test: one row down when the piece fits
      there once lifted, otherwise in place with the session over; nothing but
      the field, the pose and the state changes. */
  lemma LandSpec(g: Game)
    requires Ready(g)
    ensures var p, g' := PoseOf(g.figure), Land(g);
      var e := Paint(Board(g), Cells(p), PIXEL_EMPTY);
      && g'.data == g.data.(field := g'.data.field) && g'.persisted == g.persisted && g'.isActive == g.isActive
      && g'.figure.kindNext == g.figure.kindNext && g'.figure.kind == g.figure.kind
      && InField(Cells(MovedDown(p)))
      && if FitsAt(e, MovedDown(p)) then
           && PoseOf(g'.figure) == MovedDown(p) && g'.state == g.state
           && g'.data.field == Some(Paint(e, Cells(MovedDown(p)), Color(p.kind)))
         else
           && PoseOf(g'.figure) == p && g'.state == GAME_OVER
           && g'.data.field == Some(Paint(e, Cells(p), Color(p.kind)))
  {
    var p := PoseOf(g.figure);
    OneStepStaysInField(p);
    AttemptSpec(Board(g), p, MovedDown(p));
  }

  /** attachFigure's score, high score, stored high score, level and speed:
      the score rises by the reward for the rows removed, which are all the
      full rows of 3..22 and row 2 when it is full and anything below was
      removed; the high score becomes the larger of the two and is stored;
      level follows the new score and speed equals level. */
  lemma AttachScoring(g: Game, draw: Kind)
    requires Ready(g) && !RowFull(Board(g), 1)
    ensures var b, g' := Board(g), Attach(g, draw);
      var rows := ClearLines(b).1;
      && rows == FullRows(b, 3, BOTTOM_ROW) + (if RowFull(b, 2) && FullRows(b, 3, BOTTOM_ROW) > 0 then 1 else 0)
      && g'.data.score == g.data.score + Award(rows)
      && g'.data.highScore == (if g'.data.score > g.data.highScore then g'.data.score else g.data.highScore)
      && g'.persisted == g'.data.highScore
      && g'.data.level == LevelFor(g'.data.score) && g'.data.speed == g'.data.level
      && g'.data.pause == g.data.pause && g'.isActive
  {
    ClearLinesSpec(Board(g));
    SpawnKeepsInv(Scored(g), draw);
    LandSpec(Spawn(Scored(g), draw));
  }

  /** attachFigure's spawn: the previewed piece becomes active and the new
      draw is previewed. With H the home cells and e the cleared field with H
      emptied, the piece moves one row down when it fits there on e and the
      state is kept; otherwise it stays at home, drawn over H whatever H held,
      and the session is over. */
  lemma AttachSpawns(g: Game, draw: Kind)
    requires Ready(g) && !RowFull(Board(g), 1)
    ensures InField(Cells(Home(g.figure.kindNext))) && InField(Cells(MovedDown(Home(g.figure.kindNext))))
    ensures var k, g', cleared := g.figure.kindNext, Attach(g, draw), ClearLines(Board(g)).0;
      var h := Cells(Home(k));
      var e := Paint(cleared, h, PIXEL_EMPTY);
      && g'.figure.kind == k && g'.figure.kindNext == draw && g'.data.next == Some(PreviewOf(draw))
      && if FitsAt(e, MovedDown(Home(k))) then
           && PoseOf(g'.figure) == MovedDown(Home(k)) && g'.state == g.state
           && g'.data.field == Some(Paint(e, Cells(MovedDown(Home(k))), Color(k)))
         else
           && PoseOf(g'.figure) == Home(k) && g'.state == GAME_OVER
           && g'.data.field == Some(Paint(cleared, h, Color(k)))
  {
    var k := g.figure.kindNext;
    var h := Cells(Home(k));
    var cleared := ClearLines(Board(g)).0;
    var spawned := Spawn(Scored(g), draw);
    SpawnKeepsInv(Scored(g), draw);
    HomeAboveScreen(k);
    LandSpec(spawned);
    PaintTwice(cleared, h, Color(k), PIXEL_EMPTY);
    PaintTwice(cleared, h, PIXEL_EMPTY, Color(k));
  }

  /** A block at row 3, column 8 after line clearing always ends the game:
      that cell is the pivot of the piece one row below its home pose and is
      not one of the home cells. */
  lemma FilledPivotCellForcesGameOver(g: Game, draw: Kind)
    requires Ready(g) && !RowFull(Board(g), 1) && ClearLines(Board(g)).0[3][8] != PIXEL_EMPTY
    ensures Attach(g, draw).state == GAME_OVER
  {
    var k := g.figure.kindNext;
    var h := Cells(Home(k));
    var cleared := ClearLines(Board(g)).0;
    AttachSpawns(g, draw);
    HomeAboveScreen(k);
    PivotIsCell(MovedDown(Home(k)));
    assert (3, 8) !in h;
    PaintAt(cleared, h, PIXEL_EMPTY);
    assert Paint(cleared, h, PIXEL_EMPTY)[3][8] == cleared[3][8];
  }

  /** shiftFigure: one row down if free, otherwise attach where it stands. */
  function Shift(g: Game, draw: Kind): (g': Game)
    requires Ready(g) && (!Fall(g).moved ==> !RowFull(Fall(g).board, 1))
    ensures Ready(g')
  {
    var p := PoseOf(g.figure);
    var a := Fall(g);
    OneStepStaysInField(p);
    AttemptSpec(Board(g), p, MovedDown(p));
    assert BoardOk(a.board, a.pose, g.state);
    CommitKeepsInv(g, a, g.state);
    if a.moved then Commit(g, a) else Attach(Commit(g, a), draw)
  }

  /** The periodic shift on a field where the piece is drawn: when the piece
      fits one row lower once lifted it moves there and nothing else but the
      field changes; otherwise the piece is attached where it stands. */
  lemma ShiftSemantics(g: Game, draw: Kind)
    requires Ready(g) && g.state != START && (!Fall(g).moved ==> !RowFull(Fall(g).board, 1))
    ensures var p := PoseOf(g.figure);
      var e, g' := Paint(Board(g), Cells(p), PIXEL_EMPTY), Shift(g, draw);
      if FitsAt(e, MovedDown(p)) then
        && PoseOf(g'.figure) == MovedDown(p) && g'.figure.kindNext == g.figure.kindNext
        && g'.data == g.data.(field := Some(Paint(e, Cells(MovedDown(p)), Color(p.kind))))
        && g'.state == g.state && g'.persisted == g.persisted
      else !RowFull(Board(g), 1) && g' == Attach(g, draw)
  {
    var p := PoseOf(g.figure);
    OneStepStaysInField(p);
    var a := Fall(g);
    AttemptSpec(Board(g), p, MovedDown(p));
    if !a.moved {
      assert Placed(g.figure, p) == g.figure;
      assert Commit(g, a) == g;
    }
  }

  /** The periodic shift commits the one-row step, which keeps the session
      live, and attaches the piece when the step is refused. */
  lemma ShiftCommits(g: Game, draw: Kind)
    requires Ready(g) && (!Fall(g).moved ==> !RowFull(Fall(g).board, 1))
    ensures var p := PoseOf(g.figure);
      && InField(Cells(p)) && InField(Cells(MovedDown(p)))
      && var a := Attempt(Board(g), p, MovedDown(p));
         && a == Fall(g) && Ready(Commit(g, a))
         && Shift(g, draw) == if a.moved then Commit(g, a) else Attach(Commit(g, a), draw)
  {
    var p := PoseOf(g.figure);
    OneStepStaysInField(p);
    AttemptSpec(Board(g), p, MovedDown(p));
    CommitKeepsInv(g, Fall(g), g.state);
  }

  /** moveDown: unless paused, drop as far as possible and attach. */
  function MoveDown(g: Game, draw: Kind): (g': Game)
    requires Ready(g) && (!g.data.pause ==> !RowFull(Dropped(g).board, 1))
    ensures Ready(g')
  {
    if g.data.pause then g
    else
      DroppedSpec(g);
      CommitKeepsInv(g, Dropped(g), g.state);
      Attach(Commit(g, Dropped(g)), draw)
  }

  /** Unpaused, moveDown commits the hard drop, which keeps the session
      live, and attaches the piece where it landed. */
  lemma MoveDownCommits(g: Game, draw: Kind)
    requires Ready(g) && !g.data.pause && !RowFull(Dropped(g).board, 1)
    ensures WallsIntact(Board(g)) && Legal(PoseOf(g.figure))
    ensures var a := Drop(Board(g), PoseOf(g.figure));
      && Ready(Commit(g, a)) && !RowFull(a.board, 1)
      && MoveDown(g, draw) == Attach(Commit(g, a), draw)
  {
    DroppedSpec(g);
    CommitKeepsInv(g, Dropped(g), g.state);
  }

  /** pauseGame: flip the pause flag. */
  function PauseGame(g: Game): (g': Game)
    requires Inv(g)
    ensures Inv(g') && g'.data.pause == !g.data.pause
    ensures g' == g.(data := g.data.(pause := g'.data.pause))
  {
    g.(data := g.data.(pause := !g.data.pause))
  }

  /** startGame: fresh field, high score read back from the store, score 0,
      level and speed 1, a running game, and the previewed piece spawned. */
  function StartGame(g: Game, draw: Kind): (g': Game)
    requires Ready(g)
    ensures Ready(g') && g'.state == GAME
    ensures g'.data.score == 0 && g'.data.level == LEVEL_MIN && g'.data.speed == SPEED_MIN
    ensures g'.data.highScore == g.persisted && g'.data.pause == g.data.pause
    ensures PoseOf(g'.figure) == Home(g.figure.kindNext) && g'.figure.kindNext == draw
    ensures g'.data.field == Some(Paint(EmptyField(), Cells(Home(g.figure.kindNext)), Color(g.figure.kindNext)))
  {
    EmptyFieldShape();
    SpawnKeepsInv(Restarted(g), draw);
    Spawn(Restarted(g), draw)
  }

  /** The part of startGame before the spawn: a fresh field, the stored high
      score, the counters at their minimum and a running game. */
  function Restarted(g: Game): (g': Game)
  {
    g.(data := g.data.(field := Some(EmptyField()), highScore := g.persisted, score := 0,
                       level := LEVEL_MIN, speed := SPEED_MIN),
       state := GAME)
  }

  /** removeParameters: release both grids, end the game and the session. */
  function RemoveParameters(g: Game): (g': Game)
    requires Inv(g)
    ensures Inv(g') && !Allocated(g') && g'.state == GAME_OVER && !g'.isActive
  {
    g.(data := g.data.(field := None, next := None), state := GAME_OVER, isActive := false)
  }

  /** initializeParameters: an empty bordered field, the preview of the first
      draw, zero score, level and speed 1, not paused, state START, active.
      `stored` is the stored high score, None when there is none yet; the
      store then starts at 0. The active piece is not set by tetris_logic.c; it is
      modelled as the previewed piece at its home pose, not drawn. */
  function Initialize(draw: Kind, stored: Option<int>): (g: Game)
    ensures Ready(g) && g.state == START && g.isActive && !g.data.pause
    ensures g.data.score == 0 && g.data.level == LEVEL_MIN && g.data.speed == SPEED_MIN
    ensures g.data.field == Some(EmptyField()) && g.data.next == Some(PreviewOf(draw)) && g.figure.kindNext == draw
    ensures g.data.highScore == g.persisted == (if stored.Some? then stored.value else 0)
  {
    EmptyFieldShape();
    HomeAboveScreen(draw);
    var high := if stored.Some? then stored.value else 0;
    var home := Home(draw);
    Game(GameInfo(Some(EmptyField()), Some(PreviewOf(draw)), 0, high, LEVEL_MIN, SPEED_MIN, false),
         START, true, Figure(draw, home.kind, home.rotation, home.x, home.y), high)
  }

  /** What a handler needs from the session before it runs. */
  ghost predicate CanRun(g: Game, h: Fsm.Handler) {
    Inv(g) &&
    (match h
     case PauseGame => true
     case RemoveParameters => true
     case MoveDown => Ready(g) && (!g.data.pause ==> !RowFull(Dropped(g).board, 1))
     case _ => Ready(g))
  }

  /** A session released by removeParameters admits only the handlers that
      touch no grid; in particular the Start that the table routes from
      GAME_OVER to startGame is not admitted, because startGame clears the
      field through the released pointer. */
  lemma ReleasedRunsOnlyFlagHandlers(g: Game, h: Fsm.Handler)
    requires Inv(g) && !Allocated(g)
    ensures CanRun(g, h) <==> h == Fsm.PauseGame || h == Fsm.RemoveParameters
  {
  }

  /** After Terminate, the table still routes Start to startGame, and the
      model does not admit that call. */
  lemma StartAfterTerminateExcluded(g: Game)
    requires Inv(g)
    ensures var g' := RemoveParameters(g);
      Fsm.Lookup(g'.state, Start) == Some(Fsm.StartGame) && !CanRun(g', Fsm.StartGame)
  {
    Fsm.TableRouting(GAME_OVER, Start);
  }

  /** Run one handler. */
  function Run(g: Game, h: Fsm.Handler, draw: Kind): (g': Game)
    requires CanRun(g, h)
    ensures Inv(g')
  {
    match h
    case StartGame => StartGame(g, draw)
    case PauseGame => PauseGame(g)
    case RemoveParameters => RemoveParameters(g)
    case MoveLeft => MoveLeft(g)
    case MoveRight => MoveRight(g)
    case MoveDown => MoveDown(g, draw)
    case RotateFigure => RotateFigure(g)
  }

  /** userInput: run the handler the table assigns to the current state and
      the action, or nothing when the entry is empty. */
  function UserInput(g: Game, action: UserAction, draw: Kind): (g': Game)
    requires Inv(g) && (Fsm.Lookup(g.state, action).Some? ==> CanRun(g, Fsm.Lookup(g.state, action).value))
    ensures Inv(g')
    ensures Fsm.Lookup(g.state, action).None? ==> g' == g
  {
    match Fsm.Lookup(g.state, action)
    case None => g
    case Some(h) => Run(g, h, draw)
  }

  /** Up never acts; outside a running game only Start and Terminate act,
      and inside one Start does not; Terminate always releases the session;
      Pause in a running game flips the pause flag. */
  lemma UserInputRouting(g: Game, action: UserAction, draw: Kind)
    requires Inv(g) && (Fsm.Lookup(g.state, action).Some? ==> CanRun(g, Fsm.Lookup(g.state, action).value))
    ensures action == Up ==> UserInput(g, action, draw) == g
    ensures g.state != GAME && action != Start && action != Terminate ==> UserInput(g, action, draw) == g
    ensures g.state == GAME && action == Start ==> UserInput(g, action, draw) == g
    ensures action == Terminate ==> UserInput(g, action, draw) == RemoveParameters(g)
    ensures g.state == GAME && action == Pause ==> UserInput(g, action, draw) == PauseGame(g)
    ensures g.state != GAME && action == Start ==> UserInput(g, action, draw) == StartGame(g, draw)
  {
    Fsm.TableRouting(g.state, action);
  }
}
