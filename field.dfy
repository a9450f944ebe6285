/** The bordered playing field as a value: its shape, its walls, and the two
    primitive writes the engine makes into it (stamping and erasing a set of
    cells) together with the collision test. */
module Field {
  import opened TetrisTypes

  /** A grid of the playing field's size. */
  ghost predicate IsBoard(b: Grid) {
    |b| == FIELD_HEIGHT && forall r :: 0 <= r < |b| ==> |b[r]| == FIELD_WIDTH
  }

  predicate InBounds(r: int, c: int) {
    0 <= r < FIELD_HEIGHT && 0 <= c < FIELD_WIDTH
  }

  /** The permanent border: the bottom three rows and the three columns at
      either side. */
  predicate IsWall(r: int, c: int) {
    r > FIELD_HEIGHT - BORDER_SIZE - 1 || c < BORDER_SIZE || c > FIELD_WIDTH - BORDER_SIZE - 1
  }

  /** Every cell lies inside the field array. */
  predicate InField(cells: seq<(int, int)>) {
    forall i :: 0 <= i < |cells| ==> InBounds(cells[i].0, cells[i].1)
  }

  /** Every cell lies inside the field array and off the border. */
  predicate InInterior(cells: seq<(int, int)>) {
    forall i :: 0 <= i < |cells| ==> InBounds(cells[i].0, cells[i].1) && !IsWall(cells[i].0, cells[i].1)
  }

  /** The field as resetField leaves it: walls on the border, empty elsewhere. */
  function EmptyField(): (b: Grid)
    ensures IsBoard(b)
  {
    seq(FIELD_HEIGHT, r => seq(FIELD_WIDTH, c => if IsWall(r, c) then PIXEL_WALL else PIXEL_EMPTY))
  }

  /** Every border cell holds the wall value. */
  ghost predicate WallsIntact(b: Grid)
    requires IsBoard(b)
  {
    forall r, c :: InBounds(r, c) && IsWall(r, c) ==> b[r][c] == PIXEL_WALL
  }

  /** `b` with every cell of `cells` set to `v`, written one cell after the
      other; a cell outside the field is skipped. PaintAt states the effect
      cell by cell. */
  function Paint(b: Grid, cells: seq<(int, int)>, v: int): (b': Grid)
    requires IsBoard(b)
    ensures IsBoard(b')
    decreases |cells|
  {
    if cells == [] then b
    else
      var (r, c) := cells[|cells| - 1];
      var before := Paint(b, cells[..|cells| - 1], v);
      if InBounds(r, c) then before[r := before[r][c := v]] else before
  }

  /** Painting sets exactly the cells of `cells` to `v` and keeps every other
      cell. */
  lemma {:induction false} PaintAt(b: Grid, cells: seq<(int, int)>, v: int)
    requires IsBoard(b) && InField(cells)
    ensures forall r, c :: InBounds(r, c) ==> Paint(b, cells, v)[r][c] == if (r, c) in cells then v else b[r][c]
    decreases |cells|
  {
    if cells != [] {
      var n := |cells| - 1;
      var front := cells[..n];
      assert cells == front + [cells[n]];
      assert forall i :: 0 <= i < |front| ==> front[i] == cells[i];
      PaintAt(b, front, v);
    }
  }

  /** No cell of `cells` is occupied. */
  predicate Free(b: Grid, cells: seq<(int, int)>)
    requires IsBoard(b) && InField(cells)
  {
    forall i :: 0 <= i < |cells| ==> b[cells[i].0][cells[i].1] == PIXEL_EMPTY
  }

  /** Every cell of `cells` holds `v`. */
  predicate Holds(b: Grid, cells: seq<(int, int)>, v: int)
    requires IsBoard(b) && InField(cells)
  {
    forall i :: 0 <= i < |cells| ==> b[cells[i].0][cells[i].1] == v
  }

  /** Two boards that agree cell by cell are equal. */
  lemma BoardsEqual(a: Grid, b: Grid)
    requires IsBoard(a) && IsBoard(b)
    requires forall r, c :: InBounds(r, c) ==> a[r][c] == b[r][c]
    ensures a == b
  {
    forall r | 0 <= r < FIELD_HEIGHT
      ensures a[r] == b[r]
    {
      assert forall c :: 0 <= c < FIELD_WIDTH ==> InBounds(r, c);
    }
  }

  /** The reset field has the wall value exactly on the border and is empty
      elsewhere; in particular its top three rows are open. */
  lemma EmptyFieldShape()
    ensures WallsIntact(EmptyField())
    ensures forall r, c :: InBounds(r, c) ==>
      (EmptyField()[r][c] == PIXEL_WALL <==> r > 22 || c < 3 || c > 12) &&
      (EmptyField()[r][c] == PIXEL_EMPTY <==> !(r > 22 || c < 3 || c > 12))
    ensures forall r, c :: 0 <= r <= 2 && BORDER_SIZE <= c < FIELD_WIDTH - BORDER_SIZE ==>
      EmptyField()[r][c] == PIXEL_EMPTY
  {
  }

  /** Erasing cells that all hold `v` and then stamping `v` into them again
      gives back the board one started from. */
  lemma EraseStampRoundTrip(b: Grid, cells: seq<(int, int)>, v: int)
    requires IsBoard(b) && InField(cells) && Holds(b, cells, v)
    ensures Paint(Paint(b, cells, PIXEL_EMPTY), cells, v) == b
  {
    var b' := Paint(Paint(b, cells, PIXEL_EMPTY), cells, v);
    PaintAt(b, cells, PIXEL_EMPTY);
    PaintAt(Paint(b, cells, PIXEL_EMPTY), cells, v);
    forall r, c | InBounds(r, c)
      ensures b'[r][c] == b[r][c]
    {
      if (r, c) in cells {
        assert b[r][c] == v;
      }
    }
    BoardsEqual(b', b);
  }

  /** A second write to the same cells overrides the first. */
  lemma PaintTwice(b: Grid, cells: seq<(int, int)>, v: int, w: int)
    requires IsBoard(b) && InField(cells)
    ensures Paint(Paint(b, cells, v), cells, w) == Paint(b, cells, w)
  {
    var lhs := Paint(Paint(b, cells, v), cells, w);
    var rhs := Paint(b, cells, w);
    PaintAt(b, cells, v);
    PaintAt(Paint(b, cells, v), cells, w);
    PaintAt(b, cells, w);
    forall r, c | InBounds(r, c)
      ensures lhs[r][c] == rhs[r][c]
    {
    }
    BoardsEqual(lhs, rhs);
  }

  /** Writing into interior cells never touches the border. */
  lemma PaintKeepsWalls(b: Grid, cells: seq<(int, int)>, v: int)
    requires IsBoard(b) && InInterior(cells) && WallsIntact(b)
    ensures InField(cells) && WallsIntact(Paint(b, cells, v))
  {
    PaintAt(b, cells, v);
    forall r, c | InBounds(r, c) && IsWall(r, c)
      ensures Paint(b, cells, v)[r][c] == PIXEL_WALL
    {
      assert (r, c) !in cells;
    }
  }

  /** On a board whose walls are intact, free cells are interior cells. */
  lemma FreeCellsAreInterior(b: Grid, cells: seq<(int, int)>)
    requires IsBoard(b) && WallsIntact(b) && InField(cells) && Free(b, cells)
    ensures InInterior(cells)
  {
    forall cell | cell in cells
      ensures !IsWall(cell.0, cell.1)
    {
      assert b[cell.0][cell.1] == PIXEL_EMPTY;
    }
  }

  /** Lifting a piece from interior cells `from` and drawing it with value v
      at interior cells `to`: the walls survive, `to` holds v, and every cell
      outside both sets keeps its value. */
  lemma LiftAndDraw(b: Grid, from: seq<(int, int)>, to: seq<(int, int)>, v: int)
    requires IsBoard(b) && WallsIntact(b) && InInterior(from) && InInterior(to)
    ensures InField(from) && InField(to)
    ensures WallsIntact(Paint(b, from, PIXEL_EMPTY))
    ensures WallsIntact(Paint(Paint(b, from, PIXEL_EMPTY), to, v))
    ensures Holds(Paint(Paint(b, from, PIXEL_EMPTY), to, v), to, v)
    ensures forall r, c :: InBounds(r, c) && (r, c) !in from && (r, c) !in to ==>
      Paint(Paint(b, from, PIXEL_EMPTY), to, v)[r][c] == b[r][c]
  {
    PaintKeepsWalls(b, from, PIXEL_EMPTY);
    PaintKeepsWalls(Paint(b, from, PIXEL_EMPTY), to, v);
    PaintAt(b, from, PIXEL_EMPTY);
    PaintAt(Paint(b, from, PIXEL_EMPTY), to, v);
  }
}
