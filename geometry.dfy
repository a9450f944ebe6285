/** Piece geometry: the table of seven pieces, the quarter-turn transform, the
    cells a posed piece occupies, the one-step moves, the spawn pose and the
    preview bitmap of a piece. */
module Geometry {
  import opened TetrisTypes
  import opened Field

  /** The piece table: for each piece, four (row offset, column offset) pairs
      laid out flat, row offset at the even index. */
  const FIGURES: seq<seq<int>> := [
    [0, -1, 0, 0, 0, 1, 0, 2],    // Hero
    [-1, -1, 0, -1, 0, 0, 0, 1],  // Blue Ricky
    [0, -1, 0, 0, 0, 1, -1, 1],   // Orange Ricky
    [-1, 0, -1, 1, 0, 0, 0, 1],   // SmashBoy
    [0, -1, 0, 0, -1, 0, -1, 1],  // Rhode Island Z
    [0, -1, 0, 0, -1, 0, 0, 1],   // TeeWee
    [-1, -1, -1, 0, 0, 0, 0, 1]   // Cleveland Z
  ]

  /** Cosine and sine of r quarter turns; exact, since the angle is a multiple
      of a right angle. */
  function Cos(r: Rotation): int {
    if r == 0 then 1 else if r == 2 then -1 else 0
  }

  function Sin(r: Rotation): int {
    if r == 1 then 1 else if r == 3 then -1 else 0
  }

  /** The i-th (row offset, column offset) pair of piece k as listed. */
  function TableOffset(k: Kind, i: int): (int, int)
    requires 0 <= i < 4
  {
    (FIGURES[k][2 * i], FIGURES[k][2 * i + 1])
  }

  /** The pairs of piece k from entry i on, as listed. */
  function ListedFrom(k: Kind, i: nat): (offsets: seq<(int, int)>)
    requires i <= 4
    ensures |offsets| == 4 - i
    decreases 4 - i
  {
    if i == 4 then [] else [TableOffset(k, i)] + ListedFrom(k, i + 1)
  }

  /** The four pairs of piece k as listed. */
  function Listed(k: Kind): (offsets: seq<(int, int)>)
    ensures |offsets| == 4
  {
    ListedFrom(k, 0)
  }

  /** The listed pairs of piece k, written out entry by entry. */
  lemma ListedEntries(k: Kind)
    ensures Listed(k) == [TableOffset(k, 0), TableOffset(k, 1), TableOffset(k, 2), TableOffset(k, 3)]
  {
    assert ListedFrom(k, 3) == [TableOffset(k, 3)];
    assert ListedFrom(k, 2) == [TableOffset(k, 2), TableOffset(k, 3)];
    assert ListedFrom(k, 1) == [TableOffset(k, 1), TableOffset(k, 2), TableOffset(k, 3)];
  }

  /** The i-th listed pair is the i-th table entry. */
  lemma ListedIndex(k: Kind, i: int)
    requires 0 <= i < 4
    ensures Listed(k)[i] == TableOffset(k, i)
  {
    ListedEntries(k);
  }

  /** Every listed pair has row offset -1 or 0 and column offset -1 to 2. */
  lemma ListedRange(k: Kind)
    ensures forall o :: o in Listed(k) ==> -1 <= o.0 <= 0 && -1 <= o.1 <= 2
  {
    ListedEntries(k);
    TableRange(k, 0); TableRange(k, 1); TableRange(k, 2); TableRange(k, 3);
  }

  /** An offset (row, column) after r quarter turns. tetris_logic.c computes
      column dc*cos + dr*sin and row -dc*sin + dr*cos for the angle r * pi/2;
      with rows growing downward, each quarter turn moves a cell right of the
      pivot to the cell above it: the turn is counter-clockwise on screen. */
  function Turn(o: (int, int), r: Rotation): (int, int) {
    if r == 0 then o
    else if r == 1 then (-o.1, o.0)
    else if r == 2 then (-o.0, -o.1)
    else (o.1, -o.0)
  }

  /** The exact quarter-turn map is the rotation formula of tetris_logic.c with the
      exact cosine and sine of r quarter turns. */
  lemma TurnIsRotationFormula(o: (int, int), r: Rotation)
    ensures Turn(o, r) == (-o.1 * Sin(r) + o.0 * Cos(r), o.1 * Cos(r) + o.0 * Sin(r))
  {
  }

  /** The i-th offset of piece k after r quarter turns. */
  function Offset(k: Kind, r: Rotation, i: int): (int, int)
    requires 0 <= i < 4
  {
    Turn(TableOffset(k, i), r)
  }

  /** A piece placed on the field: its kind, rotation and pivot (x column,
      y row). */
  datatype Pose = Pose(kind: Kind, rotation: Rotation, x: int, y: int)

  function Cell(p: Pose, i: int): (int, int)
    requires 0 <= i < 4
  {
    var (dr, dc) := Offset(p.kind, p.rotation, i);
    (p.y + dr, p.x + dc)
  }

  /** The cells of table entries i to 3, in table order. */
  function CellsFrom(p: Pose, i: nat): (cs: seq<(int, int)>)
    requires i <= 4
    ensures |cs| == 4 - i
    decreases 4 - i
  {
    if i == 4 then [] else [Cell(p, i)] + CellsFrom(p, i + 1)
  }

  /** The four (row, column) cells the piece occupies. */
  function Cells(p: Pose): (cs: seq<(int, int)>)
    ensures |cs| == 4
  {
    CellsFrom(p, 0)
  }

  /** The cells of a pose, written out entry by entry. */
  lemma CellsListed(p: Pose)
    ensures Cells(p) == [Cell(p, 0), Cell(p, 1), Cell(p, 2), Cell(p, 3)]
  {
    assert CellsFrom(p, 3) == [Cell(p, 3)];
    assert CellsFrom(p, 2) == [Cell(p, 2), Cell(p, 3)];
    assert CellsFrom(p, 1) == [Cell(p, 1), Cell(p, 2), Cell(p, 3)];
  }

  function MovedLeft(p: Pose): Pose { p.(x := p.x - 1) }

  function MovedRight(p: Pose): Pose { p.(x := p.x + 1) }

  function MovedDown(p: Pose): Pose { p.(y := p.y + 1) }

  /** The next rotation, wrapping from ROTATION_MAX to ROTATION_MIN. */
  function Turned(p: Pose): Pose {
    p.(rotation := if p.rotation + 1 <= ROTATION_MAX then p.rotation + 1 else ROTATION_MIN)
  }

  /** The previous rotation, wrapping from ROTATION_MIN to ROTATION_MAX: how
      a refused turn is undone. */
  function Unturned(p: Pose): Pose {
    p.(rotation := if p.rotation - 1 >= ROTATION_MIN then p.rotation - 1 else ROTATION_MAX)
  }

  /** Undoing a turn gives back the pose, and four turns make a full circle. */
  lemma TurnRoundTrip(p: Pose)
    ensures Unturned(Turned(p)) == p && Turned(Unturned(p)) == p
    ensures Turned(Turned(Turned(Turned(p)))) == p
    ensures Turned(p) != p
  {
  }

  /** Where a new piece appears: column FIELD_WIDTH / 2, row 2, unturned. */
  function Home(k: Kind): Pose {
    Pose(k, ROTATION_MIN, FIELD_WIDTH / 2, 2)
  }

  /** The cell value of a placed piece of kind k. */
  function Color(k: Kind): int { k + 1 }

  /** The listed pairs of every piece have row offset -1 or 0 and column
      offset -1 to 2; unturned, a piece's offsets are the listed pairs. */
  lemma TableRange(k: Kind, i: int)
    requires 0 <= i < 4
    ensures -1 <= TableOffset(k, i).0 <= 0 && -1 <= TableOffset(k, i).1 <= 2
    ensures Offset(k, ROTATION_MIN, i) == TableOffset(k, i)
  {
  }

  /** The index of the listed pair (0, 0): the pivot. */
  function PivotIndex(k: Kind): (i: int)
    ensures 0 <= i < 4 && TableOffset(k, i) == (0, 0)
  {
    if k == 1 || k == 3 || k == 6 then 2 else 1
  }

  /** The four listed pairs of a piece are pairwise distinct. */
  lemma TableDistinct(k: Kind)
    ensures forall i, j :: 0 <= i < j < 4 ==> TableOffset(k, i) != TableOffset(k, j)
  {
  }

  /** In every rotation a piece has four distinct offsets, one of them the
      pivot (0, 0), all within two cells of the pivot and all inside a 4 x 4
      bounding box. */
  lemma PieceShape(k: Kind, r: Rotation)
    ensures Offset(k, r, PivotIndex(k)) == (0, 0)
    ensures forall i, j :: 0 <= i < j < 4 ==> Offset(k, r, i) != Offset(k, r, j)
    ensures forall i :: 0 <= i < 4 ==>
      -2 <= Offset(k, r, i).0 <= 2 && -2 <= Offset(k, r, i).1 <= 2
    ensures forall i, j :: 0 <= i < 4 && 0 <= j < 4 ==>
      Offset(k, r, i).0 - Offset(k, r, j).0 <= 3 && Offset(k, r, i).1 - Offset(k, r, j).1 <= 3
  {
    TableDistinct(k);
    forall i | 0 <= i < 4
      ensures -2 <= Offset(k, r, i).0 <= 2 && -2 <= Offset(k, r, i).1 <= 2
    {
      TableRange(k, i);
    }
    forall i, j | 0 <= i < 4 && 0 <= j < 4
      ensures Offset(k, r, i).0 - Offset(k, r, j).0 <= 3 && Offset(k, r, i).1 - Offset(k, r, j).1 <= 3
    {
      TableRange(k, i);
      TableRange(k, j);
    }
  }

  /** Turning r + 1 times is turning r times and then one quarter turn more,
      which maps (row, column) to (-column, row). */
  lemma TurnIsQuarterTurn(p: Pose, i: int)
    requires 0 <= i < 4
    ensures var o := Offset(p.kind, p.rotation, i);
            Offset(p.kind, Turned(p).rotation, i) == (-o.1, o.0)
  {
  }

  /** The pivot is one of the piece's own cells. */
  lemma PivotIsCell(p: Pose)
    ensures (p.y, p.x) in Cells(p)
  {
    PieceShape(p.kind, p.rotation);
    CellsListed(p);
    assert Cells(p)[PivotIndex(p.kind)] == (p.y, p.x);
  }

  /** A piece whose cells are all interior and whose pivot row is at least 2
      can take any one-step move or turn without leaving the field array. */
  lemma OneStepStaysInField(p: Pose)
    requires InInterior(Cells(p)) && p.y >= 2
    ensures InField(Cells(MovedLeft(p))) && InField(Cells(MovedRight(p)))
    ensures InField(Cells(MovedDown(p))) && InField(Cells(Turned(p)))
  {
    PivotIsCell(p);
    assert p.y <= FIELD_HEIGHT - BORDER_SIZE - 1;
    assert BORDER_SIZE <= p.x <= FIELD_WIDTH - BORDER_SIZE - 1;
    forall i | 0 <= i < 4
      ensures InBounds(Cell(MovedLeft(p), i).0, Cell(MovedLeft(p), i).1)
      ensures InBounds(Cell(MovedRight(p), i).0, Cell(MovedRight(p), i).1)
      ensures InBounds(Cell(MovedDown(p), i).0, Cell(MovedDown(p), i).1)
      ensures InBounds(Cell(Turned(p), i).0, Cell(Turned(p), i).1)
    {
      OffsetNear(p.kind, p.rotation, i);
      OffsetNear(p.kind, Turned(p).rotation, i);
    }
    EachCellInField(MovedLeft(p));
    EachCellInField(MovedRight(p));
    EachCellInField(MovedDown(p));
    EachCellInField(Turned(p));
  }

  /** A pose whose four cells are each inside the field array lies inside it. */
  lemma EachCellInField(p: Pose)
    requires forall i :: 0 <= i < 4 ==> InBounds(Cell(p, i).0, Cell(p, i).1)
    ensures InField(Cells(p))
  {
    CellsListed(p);
  }

  /** Every offset lies within two cells of the pivot. */
  lemma OffsetNear(k: Kind, r: Rotation, i: int)
    requires 0 <= i < 4
    ensures -2 <= Offset(k, r, i).0 <= 2 && -2 <= Offset(k, r, i).1 <= 2
  {
    TableRange(k, i);
  }

  /** The spawn pose lies in rows 1 and 2, above the first visible row 3, and
      in columns 7 to 10; the pose one row lower also lies inside the field. */
  lemma HomeAboveScreen(k: Kind)
    ensures InInterior(Cells(Home(k))) && InField(Cells(MovedDown(Home(k))))
    ensures forall cell :: cell in Cells(Home(k)) ==>
      1 <= cell.0 <= 2 && 7 <= cell.1 <= 10
  {
    var h := Home(k);
    forall i | 0 <= i < 4
      ensures 1 <= Cell(h, i).0 <= 2 && 7 <= Cell(h, i).1 <= 10
      ensures InBounds(Cell(MovedDown(h), i).0, Cell(MovedDown(h), i).1)
    {
      TableRange(k, i);
    }
    EachCellInField(MovedDown(h));
    EachCellWithin(h, 1, 2, 7, 10);
  }

  /** A pose whose four cells each lie in rows r0..r1 and columns c0..c1
      lies in that box. */
  lemma EachCellWithin(p: Pose, r0: int, r1: int, c0: int, c1: int)
    requires forall i :: 0 <= i < 4 ==> r0 <= Cell(p, i).0 <= r1 && c0 <= Cell(p, i).1 <= c1
    ensures forall cell :: cell in Cells(p) ==> r0 <= cell.0 <= r1 && c0 <= cell.1 <= c1
  {
    CellsListed(p);
  }

  /** The home cells lie inside the field array. */
  lemma HomeInField(k: Kind)
    ensures InField(Cells(Home(k)))
  {
    HomeAboveScreen(k);
  }

  /** A preview grid: two rows of four cells. */
  ghost predicate IsPreview(g: Grid) {
    |g| == FIGURE_HEIGHT && forall i :: 0 <= i < |g| ==> |g[i]| == FIGURE_WIDTH
  }

  /** `g` with the value v written at (dr + 1, dc + 1) for each pair (dr, dc)
      of `offsets`, one pair after the other; a pair that falls outside the
      preview is skipped. MarkAt states the effect cell by cell. */
  function Mark(g: Grid, offsets: seq<(int, int)>, v: int): (g': Grid)
    requires IsPreview(g)
    ensures IsPreview(g')
    decreases |offsets|
  {
    if offsets == [] then g
    else
      var (dr, dc) := offsets[|offsets| - 1];
      var before := Mark(g, offsets[..|offsets| - 1], v);
      if -1 <= dr <= 0 && -1 <= dc <= 2 then before[dr + 1 := before[dr + 1][dc + 1 := v]] else before
  }

  /** Marking one pair more: the pair after a prefix is written on top of
      the prefix's marks. */
  lemma MarkExtend(g: Grid, offsets: seq<(int, int)>, n: nat, v: int)
    requires IsPreview(g) && n < |offsets|
    requires -1 <= offsets[n].0 <= 0 && -1 <= offsets[n].1 <= 2
    ensures var before, (dr, dc) := Mark(g, offsets[..n], v), offsets[n];
      Mark(g, offsets[..n + 1], v) == before[dr + 1 := before[dr + 1][dc + 1 := v]]
  {
    assert offsets[..n + 1][..n] == offsets[..n];
  }

  /** Marking sets exactly the cells shifted from `offsets` to v and keeps
      every other cell. */
  lemma {:induction false} MarkAt(g: Grid, offsets: seq<(int, int)>, v: int)
    requires IsPreview(g)
    requires forall o :: o in offsets ==> -1 <= o.0 <= 0 && -1 <= o.1 <= 2
    ensures forall i, j :: 0 <= i < FIGURE_HEIGHT && 0 <= j < FIGURE_WIDTH ==>
      Mark(g, offsets, v)[i][j] == if (i - 1, j - 1) in offsets then v else g[i][j]
    decreases |offsets|
  {
    if offsets != [] {
      var n := |offsets| - 1;
      var front := offsets[..n];
      assert offsets == front + [offsets[n]];
      assert forall k :: 0 <= k < |front| ==> front[k] == offsets[k];
      MarkAt(g, front, v);
    }
  }

  /** The empty preview. */
  const EMPTY_PREVIEW: Grid := [[PIXEL_EMPTY, PIXEL_EMPTY, PIXEL_EMPTY, PIXEL_EMPTY],
                                [PIXEL_EMPTY, PIXEL_EMPTY, PIXEL_EMPTY, PIXEL_EMPTY]]

  /** The preview bitmap of piece k: the value k + 1 at (dr + 1, dc + 1) for
      each listed pair (dr, dc), empty elsewhere (PreviewAt). */
  function PreviewOf(k: Kind): (g: Grid)
    ensures IsPreview(g)
  {
    Mark(EMPTY_PREVIEW, Listed(k), Color(k))
  }

  /** Preview cell (i, j) holds the piece's value exactly when (i - 1, j - 1)
      is a listed pair, and is empty otherwise. */
  lemma PreviewAt(k: Kind)
    ensures forall i, j :: 0 <= i < FIGURE_HEIGHT && 0 <= j < FIGURE_WIDTH ==>
      PreviewOf(k)[i][j] == if (i - 1, j - 1) in Listed(k) then Color(k) else PIXEL_EMPTY
  {
    ListedRange(k);
    MarkAt(EMPTY_PREVIEW, Listed(k), Color(k));
  }

  /** The preview shows exactly the piece that will spawn: preview cell (i, j)
      is filled precisely when field cell (i + 1, j + 7) belongs to the spawn
      pose. */
  lemma PreviewMatchesSpawn(k: Kind)
    ensures forall i, j :: 0 <= i < FIGURE_HEIGHT && 0 <= j < FIGURE_WIDTH ==>
      (PreviewOf(k)[i][j] != PIXEL_EMPTY <==> (i + 1, j + 7) in Cells(Home(k)))
  {
    forall i, j | 0 <= i < FIGURE_HEIGHT && 0 <= j < FIGURE_WIDTH
      ensures PreviewOf(k)[i][j] != PIXEL_EMPTY <==> (i + 1, j + 7) in Cells(Home(k))
    {
      PreviewCell(k, i, j);
    }
  }

  lemma PreviewCell(k: Kind, i: int, j: int)
    requires 0 <= i < FIGURE_HEIGHT && 0 <= j < FIGURE_WIDTH
    ensures PreviewOf(k)[i][j] != PIXEL_EMPTY <==> (i + 1, j + 7) in Cells(Home(k))
  {
    HomeIsTranslatedTable(k);
    PreviewAt(k);
    TranslatedMember(Listed(k), i - 1, j - 1, 2, 8);
  }

  lemma HomeIsTranslatedTable(k: Kind)
    ensures Cells(Home(k)) == Translated(Listed(k), 2, 8)
  {
    CellsListed(Home(k));
    ListedEntries(k);
    TableRange(k, 0); TableRange(k, 1); TableRange(k, 2); TableRange(k, 3);
  }

  /** Each pair of `cells` moved by (dr, dc). */
  function Translated(cells: seq<(int, int)>, dr: int, dc: int): (moved: seq<(int, int)>)
    ensures |moved| == |cells|
  {
    seq(|cells|, n requires 0 <= n < |cells| => (cells[n].0 + dr, cells[n].1 + dc))
  }

  lemma TranslatedMember(cells: seq<(int, int)>, r: int, c: int, dr: int, dc: int)
    ensures (r + dr, c + dc) in Translated(cells, dr, dc) <==> (r, c) in cells
  {
    if (r, c) in cells {
      var n :| 0 <= n < |cells| && cells[n] == (r, c);
      assert Translated(cells, dr, dc)[n] == (r + dr, c + dc);
    }
  }
}
