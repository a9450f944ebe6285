/** The session object the engine mutates in place: the field and preview
    arrays, the counters, the state and the active piece. Every handler is a
    method proved to take the session to the state the corresponding
    transition of Rules gives. */
module Engine {
  import opened TetrisTypes
  import opened Field
  import opened Geometry
  import opened LineClear
  import opened Scoring
  import Rules
  import Fsm

  class Session {
    /** The playing field, null once released. */
    var field: array2?<int>
    /** The preview of the next piece, null once released. */
    var next: array2?<int>
    var score: int
    var highScore: int
    var level: int
    var speed: int
    var pause: bool
    var state: GameState
    var isActive: bool
    /** The previewed piece and the active piece with its pose. */
    var kindNext: Kind
    var kind: Kind
    var rotation: Rotation
    var x: int
    var y: int
    /** The high score held by the external store. */
    var storedHighScore: int

    /** The field array has the field's size. */
    ghost predicate FieldShaped()
      reads this`field
    {
      field != null && field.Length0 == FIELD_HEIGHT && field.Length1 == FIELD_WIDTH
    }

    /** The preview array has the preview's size. */
    ghost predicate NextShaped()
      reads this`next
    {
      next != null && next.Length0 == FIGURE_HEIGHT && next.Length1 == FIGURE_WIDTH
    }

    /** The field array holds the grid g. */
    ghost predicate FieldHolds(g: Grid)
      reads this`field, field
    {
      FieldShaped() && IsBoard(g) &&
      forall r, c {:trigger field[r, c]} :: 0 <= r < FIELD_HEIGHT && 0 <= c < FIELD_WIDTH ==> field[r, c] == g[r][c]
    }

    /** The preview array holds the grid g. */
    ghost predicate NextHolds(g: Grid)
      reads this`next, next
    {
      NextShaped() && IsPreview(g) &&
      forall r, c {:trigger next[r, c]} :: 0 <= r < FIGURE_HEIGHT && 0 <= c < FIGURE_WIDTH ==> next[r, c] == g[r][c]
    }

    /** The session as a value, b being the contents of the field array; the
        preview array is read as the preview of the previewed piece, which
        Valid demands it holds. */
    ghost function Snapshot(b: Grid): Game
      reads this
    {
      Game(GameInfo(if field == null then None else Some(b),
                    if next == null then None else Some(PreviewOf(kindNext)),
                    score, highScore, level, speed, pause),
           state, isActive, Figure(kindNext, kind, rotation, x, y), storedHighScore)
    }

    /** The arrays hold b and the preview of the previewed piece, and the
        session value keeps the invariant. */
    ghost predicate Valid(b: Grid)
      reads this, field, next
    {
      (field != null ==> FieldHolds(b)) && (next != null ==> NextHolds(PreviewOf(kindNext))) && Rules.Inv(Snapshot(b))
    }

    /** A valid session whose arrays are allocated. */
    ghost predicate Live(b: Grid)
      reads this, field, next
    {
      Valid(b) && field != null && next != null
    }

    /** initializeParameters: allocate the field and the preview, zero the
        score, reset the field, take the high score from the store (`stored`,
        None when there is none yet, in which case the store starts at 0),
        set level and speed to their minimum, clear the pause flag, draw the
        first previewed piece, and enter START as an active session. The
        active piece, which tetris_logic.c leaves unset, is set to the previewed
        piece at its home pose. */
    constructor Init(draw: Kind, stored: Option<int>)
      ensures Live(EmptyField()) && Snapshot(EmptyField()) == Rules.Initialize(draw, stored)
    {
      field := new int[FIELD_HEIGHT, FIELD_WIDTH];
      next := new int[FIGURE_HEIGHT, FIGURE_WIDTH];
      score := 0;
      highScore := if stored.Some? then stored.value else 0;
      storedHighScore := highScore;
      level := LEVEL_MIN;
      speed := SPEED_MIN;
      pause := false;
      state := START;
      isActive := true;
      kind, rotation, x, y := draw, ROTATION_MIN, FIELD_WIDTH / 2, 2;
      new;
      ResetField();
      kindNext := GenerateRandomFigure(draw);
      assert Snapshot(EmptyField()) == Rules.Initialize(draw, stored);
    }

    /** The pose of the active piece. */
    function ActivePose(): Pose
      reads this`kind, this`rotation, this`x, this`y
    {
      Pose(kind, rotation, x, y)
    }

    /** resetField: the border gets the wall value, every other cell is
        emptied. */
    method ResetField()
      requires FieldShaped()
      modifies field
      ensures FieldHolds(EmptyField())
    {
      for row := 0 to FIELD_HEIGHT
        invariant forall r, c :: 0 <= r < row && 0 <= c < FIELD_WIDTH ==>
          field[r, c] == if IsWall(r, c) then PIXEL_WALL else PIXEL_EMPTY
      {
        for col := 0 to FIELD_WIDTH
          invariant forall r, c :: 0 <= r < row && 0 <= c < FIELD_WIDTH ==>
            field[r, c] == if IsWall(r, c) then PIXEL_WALL else PIXEL_EMPTY
          invariant forall c :: 0 <= c < col ==>
            field[row, c] == if IsWall(row, c) then PIXEL_WALL else PIXEL_EMPTY
        {
          field[row, col] :=
            if row > FIELD_HEIGHT - BORDER_SIZE - 1 || col < BORDER_SIZE || col > FIELD_WIDTH - BORDER_SIZE - 1
            then PIXEL_WALL else PIXEL_EMPTY;
        }
      }
    }

    /** Write v into each of `cells` of the field, which holds b; clearFigure
        and addFigure are this loop over the active piece's cells with the
        empty value and with the piece's value. */
    method DrawCells(cells: seq<(int, int)>, v: int, ghost b: Grid)
      requires FieldHolds(b) && InField(cells)
      modifies field
      ensures FieldHolds(Paint(b, cells, v))
    {
      for i := 0 to |cells|
        invariant FieldHolds(Paint(b, cells[..i], v))
      {
        ghost var before := Paint(b, cells[..i], v);
        var (r, c) := cells[i];
        field[r, c] := v;
        assert cells[..i + 1][..i] == cells[..i];
        assert Paint(b, cells[..i + 1], v) == before[r := before[r][c := v]];
      }
      assert cells[..|cells|] == cells;
    }

    /** clearFigure: empty the cells of the active piece. */
    method ClearFigure(ghost b: Grid)
      requires FieldHolds(b) && InField(Cells(ActivePose()))
      modifies field
      ensures FieldHolds(Paint(b, Cells(ActivePose()), PIXEL_EMPTY))
    {
      DrawCells(Cells(ActivePose()), PIXEL_EMPTY, b);
    }

    /** addFigure: draw the active piece with its value. */
    method AddFigure(ghost b: Grid)
      requires FieldHolds(b) && InField(Cells(ActivePose()))
      modifies field
      ensures FieldHolds(Paint(b, Cells(ActivePose()), Color(kind)))
    {
      DrawCells(Cells(ActivePose()), Color(kind), b);
    }

    /** The collision loop of isFigureNotCollide over `cells`: true exactly
        when every cell is empty; stops at the first occupied cell. */
    method CellsFree(cells: seq<(int, int)>, ghost b: Grid) returns (isNotCollide: bool)
      requires FieldHolds(b) && InField(cells)
      ensures isNotCollide == Free(b, cells)
    {
      isNotCollide := true;
      var i := 0;
      while i < |cells| && isNotCollide
        invariant 0 <= i <= |cells|
        invariant isNotCollide <==> forall j :: 0 <= j < i ==> b[cells[j].0][cells[j].1] == PIXEL_EMPTY
      {
        var (r, c) := cells[i];
        if field[r, c] != PIXEL_EMPTY {
          isNotCollide := false;
        }
        i := i + 1;
      }
    }

    /** isFigureNotCollide: whether the active piece's cells are all empty. */
    method IsFigureNotCollide(ghost b: Grid) returns (isNotCollide: bool)
      requires FieldHolds(b) && InField(Cells(ActivePose()))
      ensures isNotCollide == Free(b, Cells(ActivePose()))
    {
      isNotCollide := CellsFree(Cells(ActivePose()), b);
    }

    /** The occupied-cell count of one row over the interior columns, as
        attachFigure computes it; g is the field's current contents. */
    method CountRowBlocks(row: int, ghost g: Grid) returns (rowBlocks: nat)
      requires FieldHolds(g) && 0 <= row < FIELD_HEIGHT
      ensures rowBlocks == CountBlocks(g[row], BORDER_SIZE, FIELD_WIDTH - BORDER_SIZE)
    {
      rowBlocks := 0;
      for col := BORDER_SIZE to FIELD_WIDTH - BORDER_SIZE
        invariant rowBlocks == CountBlocks(g[row], BORDER_SIZE, col)
      {
        if field[row, col] != PIXEL_EMPTY {
          rowBlocks := rowBlocks + 1;
        }
      }
    }

    /** Remove `row`: every row from `row` up to row 2 takes, over the
        interior columns, the contents of the row above it; g is the field's
        current contents. */
    method ShiftRowsDown(row: int, ghost g: Grid)
      requires FieldHolds(g) && 2 <= row < FIELD_HEIGHT
      modifies field
      ensures FieldHolds(ShiftDown(g, row))
    {
      var i := row;
      while i > 1
        invariant 1 <= i <= row
        invariant forall r, c :: 0 <= r < FIELD_HEIGHT && 0 <= c < FIELD_WIDTH ==>
          field[r, c] == if i < r <= row && BORDER_SIZE <= c < FIELD_WIDTH - BORDER_SIZE then g[r - 1][c] else g[r][c]
      {
        for col := BORDER_SIZE to FIELD_WIDTH - BORDER_SIZE
          invariant forall r, c :: 0 <= r < FIELD_HEIGHT && 0 <= c < FIELD_WIDTH ==>
            field[r, c] == if (i < r <= row || (r == i && c < col)) && BORDER_SIZE <= c < FIELD_WIDTH - BORDER_SIZE
                           then g[r - 1][c] else g[r][c]
        {
          field[i, col] := field[i - 1, col];
        }
        i := i - 1;
      }
    }

    /** The line-clear scan of attachFigure: from the bottom interior row up
        to row 3, a row whose ten interior cells are occupied is removed and
        the same row is tested again. Returns the number of rows removed; b is
        the field's contents before the scan. */
    method ClearFilledRows(ghost b: Grid) returns (rows: nat)
      requires FieldHolds(b) && !RowFull(b, 1)
      modifies field
      ensures FieldHolds(ClearLines(b).0) && rows == ClearLines(b).1
    {
      ghost var cur := b;
      rows := 0;
      var row := BOTTOM_ROW;
      while row > 2
        invariant 2 <= row <= BOTTOM_ROW && FieldHolds(cur) && !RowFull(cur, 1)
        invariant ClearFrom(cur, row, rows) == ClearLines(b)
      {
        var cycle := true;
        while cycle
          invariant FieldHolds(cur) && !RowFull(cur, 1)
          invariant ClearFrom(cur, row, rows) == ClearLines(b)
          invariant !cycle ==> !RowFull(cur, row)
          decreases FullRows(cur, 2, row), cycle
        {
          var rowBlocks := CountRowBlocks(row, cur);
          CountBlocksFull(cur[row], BORDER_SIZE, FIELD_WIDTH - BORDER_SIZE);
          if rowBlocks == FIELD_WIDTH - 6 {
            rows := rows + 1;
            ShiftDownDropsFullRow(cur, row);
            ShiftRowsDown(row, cur);
            cur := ShiftDown(cur, row);
          } else {
            cycle := false;
          }
        }
        row := row - 1;
      }
    }

    /** The first half of generateRandomFigure: every preview cell emptied. */
    method EmptyNext()
      requires NextShaped()
      modifies next
      ensures NextHolds(EMPTY_PREVIEW)
    {
      for row := 0 to FIGURE_HEIGHT
        invariant forall r, c :: 0 <= r < row && 0 <= c < FIGURE_WIDTH ==> next[r, c] == PIXEL_EMPTY
      {
        for col := 0 to FIGURE_WIDTH
          invariant forall r, c :: 0 <= r < row && 0 <= c < FIGURE_WIDTH ==> next[r, c] == PIXEL_EMPTY
          invariant forall c :: 0 <= c < col ==> next[row, c] == PIXEL_EMPTY
        {
          next[row, col] := PIXEL_EMPTY;
        }
      }
    }

    /** Write v into one preview cell; g is the preview's contents. */
    method SetNextCell(r: int, c: int, v: int, ghost g: Grid)
      requires NextHolds(g) && 0 <= r < FIGURE_HEIGHT && 0 <= c < FIGURE_WIDTH
      modifies next
      ensures NextHolds(g[r := g[r][c := v]])
    {
      next[r, c] := v;
    }

    /** generateRandomFigure with the random draw as a parameter: empty the
        preview, write the value of the drawn piece at each listed pair
        shifted by one row and one column, and return the draw. */
    method GenerateRandomFigure(draw: Kind) returns (k: Kind)
      requires NextShaped()
      modifies next
      ensures NextHolds(PreviewOf(draw)) && k == draw
    {
      k := draw;
      EmptyNext();
      ghost var listed := Listed(k);
      for i := 0 to 4
        invariant NextHolds(Mark(EMPTY_PREVIEW, listed[..i], Color(k)))
      {
        var (dr, dc) := TableOffset(k, i);
        TableRange(k, i);
        ListedIndex(k, i);
        MarkExtend(EMPTY_PREVIEW, listed, i, Color(k));
        SetNextCell(dr + 1, dc + 1, Color(k), Mark(EMPTY_PREVIEW, listed[..i], Color(k)));
      }
      assert listed[..4] == listed;
    }

    /** The previewed piece becomes the active piece at its home pose. */
    method PlaceNextFigure()
      modifies this`kind, this`x, this`y, this`rotation
      ensures kind == old(kindNext) && ActivePose() == Home(kind)
    {
      kind := kindNext;
      x := FIELD_WIDTH / 2;
      y := 2;
      rotation := ROTATION_MIN;
    }

    /** spawnNextFigure on a field holding b: the previewed piece becomes the
        active piece at column FIELD_WIDTH / 2, row 2, unturned, a new piece
        is drawn for the preview, and the active piece is drawn on the field;
        b' is the field's new contents. */
    method SpawnNextFigure(draw: Kind, ghost b: Grid) returns (ghost b': Grid)
      requires FieldHolds(b) && NextShaped()
      modifies this`kind, this`x, this`y, this`rotation, this`kindNext, field, next
      ensures FieldHolds(b') && NextHolds(PreviewOf(kindNext))
      ensures Snapshot(b') == Rules.Spawn(old(Snapshot(b)), draw)
    {
      PlaceNextFigure();
      kindNext := GenerateRandomFigure(draw);
      HomeInField(kind);
      AddFigure(b);
      b' := Paint(b, Cells(ActivePose()), Color(kind));
    }

    /** The body of moveLeft under its pause test: lift the piece, move it
        one column left, move it back when a cell there is taken, and draw it
        again. The field and the pose become the outcome of the rules'
        transactional step; b' is the field's new contents. */
    method StepLeft(ghost b: Grid) returns (ghost b': Grid)
      requires FieldHolds(b) && InField(Cells(ActivePose())) && InField(Cells(MovedLeft(ActivePose())))
      modifies this`x, field
      ensures var a := Rules.Attempt(b, old(ActivePose()), MovedLeft(old(ActivePose())));
        FieldHolds(b') && b' == a.board && ActivePose() == a.pose
    {
      ghost var p := ActivePose();
      ClearFigure(b);
      ghost var e := Paint(b, Cells(p), PIXEL_EMPTY);
      x := x - 1;
      assert ActivePose() == MovedLeft(p);
      var canMove := IsFigureNotCollide(e);
      if !canMove {
        x := x + 1;
        assert ActivePose() == p;
      }
      ghost var kept := if canMove then MovedLeft(p) else p;
      assert ActivePose() == kept;
      AddFigure(e);
      b' := Paint(e, Cells(kept), Color(kept.kind));
    }

    /** The body of moveRight under its pause test: as StepLeft, one column
        to the right. */
    method StepRight(ghost b: Grid) returns (ghost b': Grid)
      requires FieldHolds(b) && InField(Cells(ActivePose())) && InField(Cells(MovedRight(ActivePose())))
      modifies this`x, field
      ensures var a := Rules.Attempt(b, old(ActivePose()), MovedRight(old(ActivePose())));
        FieldHolds(b') && b' == a.board && ActivePose() == a.pose
    {
      ghost var p := ActivePose();
      ClearFigure(b);
      ghost var e := Paint(b, Cells(p), PIXEL_EMPTY);
      x := x + 1;
      assert ActivePose() == MovedRight(p);
      var canMove := IsFigureNotCollide(e);
      if !canMove {
        x := x - 1;
        assert ActivePose() == p;
      }
      ghost var kept := if canMove then MovedRight(p) else p;
      assert ActivePose() == kept;
      AddFigure(e);
      b' := Paint(e, Cells(kept), Color(kept.kind));
    }

    /** The body of rotateFigure under its pause test: lift the piece,
        advance its rotation (wrapping from the last to the first), step it
        back (wrapping from the first to the last) when a cell is taken, and
        draw it again. */
    method StepTurn(ghost b: Grid) returns (ghost b': Grid)
      requires FieldHolds(b) && InField(Cells(ActivePose())) && InField(Cells(Turned(ActivePose())))
      modifies this`rotation, field
      ensures var a := Rules.Attempt(b, old(ActivePose()), Turned(old(ActivePose())));
        FieldHolds(b') && b' == a.board && ActivePose() == a.pose
    {
      ghost var p := ActivePose();
      TurnRoundTrip(p);
      ClearFigure(b);
      ghost var e := Paint(b, Cells(p), PIXEL_EMPTY);
      rotation := if rotation + 1 <= ROTATION_MAX then rotation + 1 else ROTATION_MIN;
      assert ActivePose() == Turned(p);
      var canRotate := IsFigureNotCollide(e);
      if !canRotate {
        rotation := if rotation - 1 >= ROTATION_MIN then rotation - 1 else ROTATION_MAX;
        assert ActivePose() == Unturned(Turned(p));
      }
      ghost var kept := if canRotate then Turned(p) else p;
      assert ActivePose() == kept;
      AddFigure(e);
      b' := Paint(e, Cells(kept), Color(kept.kind));
    }

    /** The one-row step of shiftFigure and of attachFigure's game-over
        test: lift the piece, move it one row down, move it back when a cell
        there is taken, and draw it again. canShift tells whether it moved. */
    method StepDown(ghost b: Grid) returns (canShift: bool, ghost b': Grid)
      requires FieldHolds(b) && InField(Cells(ActivePose())) && InField(Cells(MovedDown(ActivePose())))
      modifies this`y, field
      ensures var a := Rules.Attempt(b, old(ActivePose()), MovedDown(old(ActivePose())));
        FieldHolds(b') && b' == a.board && ActivePose() == a.pose && canShift == a.moved
    {
      ghost var p := ActivePose();
      ClearFigure(b);
      ghost var e := Paint(b, Cells(p), PIXEL_EMPTY);
      y := y + 1;
      assert ActivePose() == MovedDown(p);
      canShift := IsFigureNotCollide(e);
      if !canShift {
        y := y - 1;
        assert ActivePose() == p;
      }
      ghost var kept := if canShift then MovedDown(p) else p;
      assert ActivePose() == kept;
      AddFigure(e);
      b' := Paint(e, Cells(kept), Color(kept.kind));
    }

    /** The body of moveDown before the attachment: lift the piece, move it
        down one row at a time while the cells below are free, stepping back
        from the first refused row, and draw it where it stopped. */
    method HardDrop(ghost b: Grid) returns (ghost b': Grid)
      requires FieldHolds(b) && WallsIntact(b) && Rules.Legal(ActivePose())
      modifies this`y, field
      ensures var a := Rules.Drop(b, old(ActivePose()));
        FieldHolds(b') && b' == a.board && ActivePose() == a.pose
    {
      ghost var p := ActivePose();
      ClearFigure(b);
      ghost var e := Paint(b, Cells(p), PIXEL_EMPTY);
      PaintKeepsWalls(b, Cells(p), PIXEL_EMPTY);
      var canMove := true;
      while canMove
        invariant FieldHolds(e) && Rules.Legal(ActivePose()) && ActivePose() == p.(y := y)
        invariant canMove ==> Rules.DropFrom(e, ActivePose()) == Rules.DropFrom(e, p)
        invariant !canMove ==> ActivePose() == Rules.DropFrom(e, p)
        decreases canMove, FIELD_HEIGHT - y
      {
        ghost var q := ActivePose();
        OneStepStaysInField(q);
        PivotIsCell(q);
        y := y + 1;
        assert ActivePose() == MovedDown(q);
        canMove := IsFigureNotCollide(e);
        if canMove {
          FreeCellsAreInterior(e, Cells(MovedDown(q)));
        } else {
          y := y - 1;
          assert ActivePose() == q;
        }
      }
      AddFigure(e);
      b' := Paint(e, Cells(ActivePose()), Color(kind));
    }

    /** The counters of attachFigure after `rows` rows were removed: the
        score rises by the reward for that many rows, the high score is
        raised to it and stored when passed, and level and speed follow the
        score. */
    method Reward(rows: nat)
      requires score >= 0
      modifies this`score, this`highScore, this`storedHighScore, this`level, this`speed
      ensures score == old(score) + Award(rows) && level == LevelFor(score) && speed == level
      ensures highScore == (if score > old(highScore) then score else old(highScore))
      ensures storedHighScore == (if score > old(highScore) then score else old(storedHighScore))
    {
      if rows == 1 {
        score := score + SCORE_ROWS_1;
      } else if rows == 2 {
        score := score + SCORE_ROWS_2;
      } else if rows == 3 {
        score := score + SCORE_ROWS_3;
      } else if rows == 4 {
        score := score + SCORE_ROWS_4;
      }
      if score > highScore {
        highScore := score;
        storedHighScore := highScore;
      }
      level := if TruncDiv(score, LEVEL_THRESHOLD) + 1 <= LEVEL_MAX then TruncDiv(score, LEVEL_THRESHOLD) + 1 else LEVEL_MAX;
      speed := level;
    }

    /** The bookkeeping half of attachFigure on a live session whose field
        holds b: remove the full rows, then update the counters. The session
        becomes the value the rules give. */
    method Settle(ghost b: Grid) returns (ghost c: Grid)
      requires Live(b) && !RowFull(b, 1)
      modifies field, this`score, this`highScore, this`storedHighScore, this`level, this`speed
      ensures FieldHolds(c) && NextHolds(PreviewOf(kindNext))
      ensures Snapshot(c) == Rules.Scored(old(Snapshot(b)))
    {
      ghost var g := Snapshot(b);
      assert g.data.field == Some(b) && g.data.score == score && g.data.highScore == highScore;
      var rows := ClearFilledRows(b);
      c := ClearLines(b).0;
      Reward(rows);
      assert Snapshot(c) == g.(data := g.data.(field := Some(c), score := score, highScore := highScore,
                                               level := level, speed := speed),
                               persisted := storedHighScore);
    }

    /** The one-row step down on a live session whose field holds b: the
        session commits the step the rules give, and canShift tells whether
        the piece moved. */
    method FallStep(ghost b: Grid) returns (canShift: bool, ghost b': Grid)
      requires Live(b)
      modifies this`y, field
      ensures FieldHolds(b') && NextHolds(PreviewOf(kindNext))
      ensures var g := old(Snapshot(b));
        canShift == Rules.Fall(g).moved && Snapshot(b') == Rules.Commit(g, Rules.Fall(g))
    {
      ghost var g := Snapshot(b);
      assert g.data.field == Some(b) && g.figure == Figure(kindNext, kind, rotation, x, y);
      Rules.FallIs(g);
      canShift, b' := StepDown(b);
      assert Snapshot(b') == g.(data := g.data.(field := Some(b')), figure := g.figure.(y := y));
    }

    /** The game-over test that ends attachFigure, on a live session whose
        field holds b: the one-row step down; when it is refused the session
        is over. */
    method LandTest(ghost b: Grid) returns (ghost b': Grid)
      requires Live(b)
      modifies this`y, this`state, field
      ensures FieldHolds(b') && NextHolds(PreviewOf(kindNext))
      ensures Snapshot(b') == Rules.Land(old(Snapshot(b)))
    {
      ghost var g := Snapshot(b);
      Rules.LandCommits(g);
      var canShift;
      canShift, b' := FallStep(b);
      if !canShift {
        state := GAME_OVER;
      }
      assert Snapshot(b') == Rules.Commit(g, Rules.Fall(g)).(state := state);
    }

    /** attachFigure on a live session whose field holds b, row 1 not being
        full: the bookkeeping, the spawn of the previewed piece with `draw`
        as the new preview, and the game-over test. */
    method AttachFigure(draw: Kind, ghost b: Grid) returns (ghost b': Grid)
      requires Live(b) && !RowFull(b, 1)
      modifies field, next, this`score, this`highScore, this`storedHighScore, this`level, this`speed
      modifies this`kind, this`x, this`y, this`rotation, this`kindNext, this`state
      ensures FieldHolds(b') && NextHolds(PreviewOf(kindNext))
      ensures Snapshot(b') == Rules.Attach(old(Snapshot(b)), draw)
    {
      ghost var g := Snapshot(b);
      var c := Settle(b);
      var d := SpawnNextFigure(draw, c);
      Rules.SpawnKeepsInv(Rules.Scored(g), draw);
      b' := LandTest(d);
    }

    /** moveLeft on a live session whose field holds b: the session becomes
        the value the rules give for moveLeft (no change while paused); b' is
        the field's new contents. */
    method MoveLeft(ghost b: Grid) returns (ghost b': Grid)
      requires Live(b)
      modifies this`x, field
      ensures FieldHolds(b') && NextHolds(PreviewOf(kindNext))
      ensures Snapshot(b') == Rules.MoveLeft(old(Snapshot(b)))
    {
      ghost var g := Snapshot(b);
      assert g.data.field == Some(b) && g.figure == Figure(kindNext, kind, rotation, x, y);
      b' := b;
      if !pause {
        OneStepStaysInField(ActivePose());
        b' := StepLeft(b);
        assert Snapshot(b') == g.(data := g.data.(field := Some(b')), figure := g.figure.(x := x));
      }
    }

    /** moveRight: as moveLeft, one column to the right. */
    method MoveRight(ghost b: Grid) returns (ghost b': Grid)
      requires Live(b)
      modifies this`x, field
      ensures FieldHolds(b') && NextHolds(PreviewOf(kindNext))
      ensures Snapshot(b') == Rules.MoveRight(old(Snapshot(b)))
    {
      ghost var g := Snapshot(b);
      assert g.data.field == Some(b) && g.figure == Figure(kindNext, kind, rotation, x, y);
      b' := b;
      if !pause {
        OneStepStaysInField(ActivePose());
        b' := StepRight(b);
        assert Snapshot(b') == g.(data := g.data.(field := Some(b')), figure := g.figure.(x := x));
      }
    }

    /** rotateFigure: the session becomes the value the rules give for
        rotateFigure (no change while paused). */
    method RotateFigure(ghost b: Grid) returns (ghost b': Grid)
      requires Live(b)
      modifies this`rotation, field
      ensures FieldHolds(b') && NextHolds(PreviewOf(kindNext))
      ensures Snapshot(b') == Rules.RotateFigure(old(Snapshot(b)))
    {
      ghost var g := Snapshot(b);
      assert g.data.field == Some(b) && g.figure == Figure(kindNext, kind, rotation, x, y);
      b' := b;
      if !pause {
        OneStepStaysInField(ActivePose());
        b' := StepTurn(b);
        assert Snapshot(b') == g.(data := g.data.(field := Some(b')), figure := g.figure.(rotation := rotation));
      }
    }

    /** The hard drop on a live session whose field holds b: the session
        commits the drop the rules give. */
    method DropStep(ghost b: Grid) returns (ghost b': Grid)
      requires Live(b)
      modifies this`y, field
      ensures FieldHolds(b') && NextHolds(PreviewOf(kindNext))
      ensures var g := old(Snapshot(b)); Snapshot(b') == Rules.Commit(g, Rules.Dropped(g))
    {
      ghost var g := Snapshot(b);
      assert g.data.field == Some(b) && g.figure == Figure(kindNext, kind, rotation, x, y);
      b' := HardDrop(b);
      assert Snapshot(b') == g.(data := g.data.(field := Some(b')), figure := g.figure.(y := y));
    }

    /** shiftFigure, the periodic step of updateCurrentState, on a live
        session whose field holds b: the one-row step down, and the
        attachment when it is refused. */
    method ShiftFigure(draw: Kind, ghost b: Grid) returns (ghost b': Grid)
      requires Live(b)
      requires var a := Rules.Fall(Snapshot(b)); !a.moved ==> !RowFull(a.board, 1)
      modifies field, next, this`score, this`highScore, this`storedHighScore, this`level, this`speed
      modifies this`kind, this`x, this`y, this`rotation, this`kindNext, this`state
      ensures FieldHolds(b') && NextHolds(PreviewOf(kindNext))
      ensures Snapshot(b') == Rules.Shift(old(Snapshot(b)), draw)
    {
      ghost var g := Snapshot(b);
      Rules.ShiftCommits(g, draw);
      var canShift;
      canShift, b' := FallStep(b);
      if !canShift {
        b' := AttachFigure(draw, b');
      }
    }

    /** moveDown on a live session whose field holds b: unless paused, the
        hard drop and the attachment where the piece lands. */
    method MoveDown(draw: Kind, ghost b: Grid) returns (ghost b': Grid)
      requires Live(b) && (!pause ==> !RowFull(Rules.Dropped(Snapshot(b)).board, 1))
      modifies field, next, this`score, this`highScore, this`storedHighScore, this`level, this`speed
      modifies this`kind, this`x, this`y, this`rotation, this`kindNext, this`state
      ensures FieldHolds(b') && NextHolds(PreviewOf(kindNext))
      ensures Snapshot(b') == Rules.MoveDown(old(Snapshot(b)), draw)
    {
      ghost var g := Snapshot(b);
      b' := b;
      if !pause {
        Rules.MoveDownCommits(g, draw);
        b' := DropStep(b);
        b' := AttachFigure(draw, b');
      }
    }

    /** pauseGame: flip the pause flag; b is the field's contents. */
    method PauseGame(ghost b: Grid)
      requires Valid(b)
      modifies this`pause
      ensures Valid(b) && Snapshot(b) == Rules.PauseGame(old(Snapshot(b)))
    {
      pause := !pause;
    }

    /** The part of startGame before the spawn, on a live session whose
        field holds b: reset the field, read the high score back from the
        store, zero the score, set level and speed to their minimum and
        enter GAME. */
    method Restart(ghost b: Grid)
      requires Live(b)
      modifies field, this`score, this`highScore, this`level, this`speed, this`state
      ensures FieldHolds(EmptyField()) && NextHolds(PreviewOf(kindNext))
      ensures Snapshot(EmptyField()) == Rules.Restarted(old(Snapshot(b)))
    {
      ResetField();
      ResetCounters();
    }

    /** The counters of startGame: the high score read back from the store,
        the score zeroed, level and speed at their minimum, and a running
        game. */
    method ResetCounters()
      modifies this`score, this`highScore, this`level, this`speed, this`state
      ensures highScore == storedHighScore && score == 0 && level == LEVEL_MIN && speed == SPEED_MIN && state == GAME
    {
      highScore := storedHighScore;
      score := 0;
      level := LEVEL_MIN;
      speed := SPEED_MIN;
      state := GAME;
    }

    /** startGame on a live session whose field holds b: the restart, then
        the spawn of the previewed piece with `draw` as the new preview. */
    method StartGame(draw: Kind, ghost b: Grid) returns (ghost b': Grid)
      requires Live(b)
      modifies field, next, this`score, this`highScore, this`level, this`speed, this`state
      modifies this`kind, this`x, this`y, this`rotation, this`kindNext
      ensures FieldHolds(b') && NextHolds(PreviewOf(kindNext))
      ensures Snapshot(b') == Rules.StartGame(old(Snapshot(b)), draw)
    {
      Restart(b);
      b' := SpawnNextFigure(draw, EmptyField());
    }

    /** removeParameters: release both grids, end the game and deactivate
        the session. */
    method RemoveParameters(ghost b: Grid)
      requires Valid(b)
      modifies this`field, this`next, this`state, this`isActive
      ensures Valid(b) && Snapshot(b) == Rules.RemoveParameters(old(Snapshot(b)))
    {
      ghost var g := Snapshot(b);
      field := null;
      next := null;
      state := GAME_OVER;
      isActive := false;
      assert Snapshot(b) == g.(data := g.data.(field := None, next := None), state := GAME_OVER, isActive := false);
    }

    /** Run the handler h that the state machine table selected, on a session
        whose field holds b. */
    method Dispatch(h: Fsm.Handler, draw: Kind, ghost b: Grid) returns (ghost b': Grid)
      requires Valid(b) && Rules.CanRun(Snapshot(b), h)
      modifies this, field, next
      ensures Valid(b') && Snapshot(b') == Rules.Run(old(Snapshot(b)), h, draw)
    {
      b' := b;
      match h
      case StartGame =>
        b' := StartGame(draw, b);
      case PauseGame =>
        PauseGame(b);
      case RemoveParameters =>
        RemoveParameters(b);
      case MoveLeft =>
        b' := MoveLeft(b);
      case MoveRight =>
        b' := MoveRight(b);
      case MoveDown =>
        b' := MoveDown(draw, b);
      case RotateFigure =>
        b' := RotateFigure(b);
    }

    /** userInput: look up the handler for the current state and the action
        in the state machine table and run it; an empty entry does nothing. */
    method UserInput(action: UserAction, draw: Kind, ghost b: Grid) returns (ghost b': Grid)
      requires Valid(b)
      requires Fsm.Lookup(state, action).Some? ==> Rules.CanRun(Snapshot(b), Fsm.Lookup(state, action).value)
      modifies this, field, next
      ensures Valid(b') && Snapshot(b') == Rules.UserInput(old(Snapshot(b)), action, draw)
    {
      b' := b;
      var handler := Fsm.Lookup(state, action);
      if handler.Some? {
        b' := Dispatch(handler.value, draw, b);
      }
    }
  }
}
