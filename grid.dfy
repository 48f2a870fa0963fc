/** The grid arithmetic of src/extension.js: the host's linear list of
    workspaces read as a row-major grid of `rows` x `columns` cells, at most
    `MaxWorkspaces` of which the host can hold. Everything here is pure; the
    host's active workspace and workspace count are parameters. */
module Grid {

  /** The cap the extension assumes Mutter puts on the number of workspaces. */
  const MaxWorkspaces: int := 36

  /** The four `Meta.MotionDirection` values the extension handles. */
  datatype Direction = Up | Down | Left | Right

  datatype RowCol = RowCol(row: int, col: int)

  datatype Option<T> = None | Some(value: T)

  /** The wraparound preferences read by `actionMoveWorkspace`: the
      wraparound, wrap-to-same and wrap-to-same-scroll switches and the
      scroll-direction string ("horizontal" or "vertical"). */
  datatype WrapSettings = WrapSettings(
    wraparound: bool,
    wrapToSame: bool,
    wrapToSameScroll: bool,
    scrollDirection: string)

  /** `indexToRowCol`: the cell of a workspace index, row-major and 0-based. */
  function IndexToRowCol(index: nat, columns: int): (rc: RowCol)
    requires columns >= 1
    ensures 0 <= rc.row && 0 <= rc.col < columns
    ensures rc.row * columns + rc.col == index
  {
    RowCol(index / columns, index % columns)
  }

  /** `rowColToIndex`: the index of a cell, or the sentinel -1 once the
      index would reach the workspace cap. Below the cap it inverts
      `indexToRowCol` on every cell whose column is in range. */
  function RowColToIndex(row: int, col: int, columns: int): (idx: int)
    ensures row * columns + col >= MaxWorkspaces ==> idx == -1
    ensures row * columns + col < MaxWorkspaces ==> idx == row * columns + col
    ensures columns >= 1 && 0 <= row && 0 <= col < columns && row * columns + col < MaxWorkspaces ==>
              0 <= idx < MaxWorkspaces && IndexToRowCol(idx, columns) == RowCol(row, col)
  {
    var i := row * columns + col;
    if i >= MaxWorkspaces then -1
    else if columns >= 1 && 0 <= row && 0 <= col < columns then
      CellOfIndex(row, col, columns);
      i
    else i
  }

  /** Scaling both sides of `a < b` by a positive count keeps a whole count between them. */
  lemma MulStep(a: int, b: int, c: int)
    requires a < b && c >= 1
    ensures a * c + c <= b * c
  {
    var d := b - a - 1;
    assert b * c == a * c + c + d * c;
    assert d * c >= 0;
  }

  /** The row-major decomposition of an index is unique. */
  lemma CellOfIndex(row: int, col: int, columns: int)
    requires columns >= 1 && 0 <= row && 0 <= col < columns
    ensures IndexToRowCol(row * columns + col, columns) == RowCol(row, col)
  {
    var i := row * columns + col;
    var rc := IndexToRowCol(i, columns);
    if rc.row < row {
      MulStep(rc.row, row, columns);
    } else if rc.row > row {
      MulStep(row, rc.row, columns);
    }
  }

  /** Converting an index below the cap to its cell and back gives the index. */
  lemma IndexRoundTrip(index: nat, columns: int)
    requires columns >= 1 && index < MaxWorkspaces
    ensures var rc := IndexToRowCol(index, columns);
            RowColToIndex(rc.row, rc.col, columns) == index
  {
  }

  /** An index lies inside a `rows` x `columns` grid exactly when its row does. */
  lemma InGridRow(index: nat, rows: int, columns: int)
    requires columns >= 1
    ensures index < rows * columns <==> IndexToRowCol(index, columns).row < rows
  {
    var rc := IndexToRowCol(index, columns);
    if rc.row < rows {
      MulStep(rc.row, rows, columns);
    } else if rows < rc.row {
      MulStep(rows, rc.row, columns);
    }
  }

  /** The cell one step from `rc` in `dir`, clamped to the grid. */
  function StepCell(dir: Direction, rc: RowCol, rows: int, columns: int): RowCol
  {
    match dir
    case Left => rc.(col := Max(0, rc.col - 1))
    case Right => rc.(col := Min(columns - 1, rc.col + 1))
    case Up => rc.(row := Max(0, rc.row - 1))
    case Down => rc.(row := Min(rows - 1, rc.row + 1))
  }

  function Max(a: int, b: int): int { if a < b then b else a }
  function Min(a: int, b: int): int { if a < b then a else b }

  /** `get_neighbor`: the index one cell from `from` in `dir`, clamped at the grid edge. */
  function Neighbor(dir: Direction, from: nat, rows: int, columns: int): (to: int)
    requires columns >= 1
    ensures rows >= 1 ==> to == -1 || 0 <= to < MaxWorkspaces
    ensures from < MaxWorkspaces && AtEdge(dir, IndexToRowCol(from, columns), rows, columns) ==> to == from
  {
    var to := StepCell(dir, IndexToRowCol(from, columns), rows, columns);
    RowColToIndex(to.row, to.col, columns)
  }

  /** Whether a cell lies on the grid edge that `dir` points at. */
  predicate AtEdge(dir: Direction, rc: RowCol, rows: int, columns: int)
  {
    match dir
    case Left => rc.col == 0
    case Right => rc.col == columns - 1
    case Up => rc.row == 0
    case Down => rc.row == rows - 1
  }

  /** A grid that fits under the cap, and an index inside it. */
  predicate InGrid(from: nat, rows: int, columns: int)
  {
    1 <= rows && 1 <= columns && rows * columns <= MaxWorkspaces && from < rows * columns
  }

  /** One step moves along one axis only, by at most one cell, stays in the
      grid, and stays put exactly on the edge it points at. */
  lemma NeighborStep(dir: Direction, from: nat, rows: int, columns: int)
    requires InGrid(from, rows, columns)
    ensures var to := Neighbor(dir, from, rows, columns);
            var a := IndexToRowCol(from, columns);
            0 <= to < rows * columns &&
            var b := IndexToRowCol(to, columns);
            (dir.Left? || dir.Right? ==> b.row == a.row) &&
            (dir.Up? || dir.Down? ==> b.col == a.col) &&
            (dir.Left? ==> b.col == a.col - 1 || b.col == a.col) &&
            (dir.Right? ==> b.col == a.col + 1 || b.col == a.col) &&
            (dir.Up? ==> b.row == a.row - 1 || b.row == a.row) &&
            (dir.Down? ==> b.row == a.row + 1 || b.row == a.row) &&
            (to == from <==> AtEdge(dir, a, rows, columns))
  {
    var a := IndexToRowCol(from, columns);
    InGridRow(from, rows, columns);
    var c := StepCell(dir, a, rows, columns);
    assert 0 <= c.row < rows && 0 <= c.col < columns;
    MulStep(c.row, rows, columns);
  }

  /** `calculateScrollDirection`: under a horizontal scroll axis, Up and Down
      become Left and Right; any other axis leaves the direction alone. */
  function ScrollDirection(dir: Direction, scrollDirection: string): (r: Direction)
    ensures scrollDirection != "horizontal" ==> r == dir
    ensures scrollDirection == "horizontal" ==> (r.Left? || r.Right?)
    ensures scrollDirection == "horizontal" ==> (r.Left? <==> dir.Up? || dir.Left?)
  {
    if scrollDirection == "horizontal" then
      match dir
      case Up => Left
      case Down => Right
      case _ => dir
    else dir
  }

  /** The direction `calculateWorkspace` actually moves in. */
  function EffectiveDirection(dir: Direction, w: WrapSettings, overrideScroll: bool): (r: Direction)
    ensures !overrideScroll || w.scrollDirection != "horizontal" ==> r == dir
    ensures overrideScroll && w.scrollDirection == "horizontal" ==> (r.Left? || r.Right?)
  {
    if overrideScroll then ScrollDirection(dir, w.scrollDirection) else dir
  }

  /** The wrap-to-same flag `calculateWorkspace` actually uses: under the
      scroll override, wrap-to-same only holds when the scroll flavour of
      it holds too. */
  function EffectiveWrapToSame(w: WrapSettings, overrideScroll: bool): (same: bool)
    ensures same <==> w.wrapToSame && (overrideScroll ==> w.wrapToSameScroll)
  {
    if overrideScroll && !w.wrapToSameScroll then w.wrapToSameScroll else w.wrapToSame
  }

  /** The cell `calculateWorkspace` jumps to from an edge cell; it may lie
      one row or column outside the grid when the line is not kept. */
  function WrapCell(dir: Direction, rc: RowCol, rows: int, columns: int, same: bool): RowCol
  {
    match dir
    case Left => RowCol(if same then rc.row else rc.row - 1, columns - 1)
    case Right => RowCol(if same then rc.row else rc.row + 1, 0)
    case Up => RowCol(rows - 1, if same then rc.col else rc.col - 1)
    case Down => RowCol(0, if same then rc.col else rc.col + 1)
  }

  /** The wrap step: a cell before the grid start saturates to the last
      workspace, one past the grid end to the first. */
  function WrapIndex(dir: Direction, from: nat, nWorkspaces: int, rows: int, columns: int, same: bool): int
    requires columns >= 1
  {
    var c := WrapCell(dir, IndexToRowCol(from, columns), rows, columns, same);
    if c.col < 0 || c.row < 0 then nWorkspaces - 1
    else if c.col > columns - 1 || c.row > rows - 1 then 0
    else RowColToIndex(c.row, c.col, columns)
  }

  /** `calculateWorkspace`: the index of the workspace in direction `dir`
      from the active workspace `from`, under the wraparound settings. */
  function CalculateWorkspace(dir: Direction, from: nat, nWorkspaces: int, rows: int, columns: int,
                              w: WrapSettings, overrideScroll: bool): (to: int)
    requires columns >= 1
    ensures rows >= 1 ==> to == -1 || 0 <= to < MaxWorkspaces || to == nWorkspaces - 1
  {
    var d := EffectiveDirection(dir, w, overrideScroll);
    var to := Neighbor(d, from, rows, columns);
    if !w.wraparound || from != to then to
    else WrapIndex(d, from, nWorkspaces, rows, columns, EffectiveWrapToSame(w, overrideScroll))
  }

  /** What `calculateWorkspace` returns when no case of its switches matches
      (an undefined direction): `get_neighbor` passes the active index
      through the two conversions, and when that leaves it in place and
      wraparound is on, the wrap step finds its row past the grid's last
      row or not. An active workspace outside the grid thus jumps to the
      first one; one inside the grid stays put. */
  function CalculateUndirected(from: nat, rows: int, columns: int, wraparound: bool): (to: int)
    requires columns >= 1
    ensures from >= MaxWorkspaces ==> to == -1
    ensures from < MaxWorkspaces && (!wraparound || from < rows * columns) ==> to == from
    ensures from < MaxWorkspaces && wraparound && from >= rows * columns ==> to == 0
  {
    var rc := IndexToRowCol(from, columns);
    var to := RowColToIndex(rc.row, rc.col, columns);
    InGridRow(from, rows, columns);
    if !wraparound || from != to then to
    else if rc.row > rows - 1 then 0
    else to
  }

  /** The scroll override is a plain move in the remapped direction with
      wrap-to-same narrowed by its scroll flavour; without the override the
      scroll settings play no part. */
  lemma ScrollOverride(dir: Direction, from: nat, nWorkspaces: int, rows: int, columns: int,
                       w: WrapSettings, axis: string, sameScroll: bool)
    requires columns >= 1
    ensures CalculateWorkspace(dir, from, nWorkspaces, rows, columns, w, true)
            == CalculateWorkspace(ScrollDirection(dir, w.scrollDirection), from, nWorkspaces, rows, columns,
                                  w.(wrapToSame := w.wrapToSame && w.wrapToSameScroll), false)
    ensures CalculateWorkspace(dir, from, nWorkspaces, rows, columns, w, false)
            == CalculateWorkspace(dir, from, nWorkspaces, rows, columns,
                                  w.(scrollDirection := axis, wrapToSameScroll := sameScroll), false)
    ensures w.scrollDirection != "horizontal" && w.wrapToSameScroll ==>
              CalculateWorkspace(dir, from, nWorkspaces, rows, columns, w, true)
              == CalculateWorkspace(dir, from, nWorkspaces, rows, columns, w, false)
  {
  }

  /** Without wraparound, or away from the edge, the result is the clamped neighbour. */
  lemma CalculateIsNeighbor(dir: Direction, from: nat, nWorkspaces: int, rows: int, columns: int,
                            w: WrapSettings, overrideScroll: bool)
    requires columns >= 1
    requires var to := Neighbor(EffectiveDirection(dir, w, overrideScroll), from, rows, columns);
             !w.wraparound || to != from
    ensures CalculateWorkspace(dir, from, nWorkspaces, rows, columns, w, overrideScroll)
            == Neighbor(EffectiveDirection(dir, w, overrideScroll), from, rows, columns)
  {
  }

  /** With wraparound, an edge move that keeps the line lands on the
      opposite end of the same row (Left/Right) or column (Up/Down). */
  lemma WrapToSameLine(dir: Direction, from: nat, nWorkspaces: int, rows: int, columns: int,
                       w: WrapSettings, overrideScroll: bool)
    requires InGrid(from, rows, columns)
    requires w.wraparound && EffectiveWrapToSame(w, overrideScroll)
    requires AtEdge(EffectiveDirection(dir, w, overrideScroll), IndexToRowCol(from, columns), rows, columns)
    ensures var a := IndexToRowCol(from, columns);
            var to := CalculateWorkspace(dir, from, nWorkspaces, rows, columns, w, overrideScroll);
            match EffectiveDirection(dir, w, overrideScroll)
            case Left => to == a.row * columns + columns - 1
            case Right => to == a.row * columns
            case Up => to == (rows - 1) * columns + a.col
            case Down => to == a.col
  {
    var d := EffectiveDirection(dir, w, overrideScroll);
    NeighborStep(d, from, rows, columns);
    var a := IndexToRowCol(from, columns);
    InGridRow(from, rows, columns);
    var c := WrapCell(d, a, rows, columns, true);
    MulStep(c.row, rows, columns);
  }

  /** With wraparound, an edge move that does not keep the line also steps
      to the adjacent row or column; stepping before the first line gives
      the last workspace and past the last line the first. */
  lemma WrapToAdjacentLine(dir: Direction, from: nat, nWorkspaces: int, rows: int, columns: int,
                           w: WrapSettings, overrideScroll: bool)
    requires InGrid(from, rows, columns)
    requires w.wraparound && !EffectiveWrapToSame(w, overrideScroll)
    requires AtEdge(EffectiveDirection(dir, w, overrideScroll), IndexToRowCol(from, columns), rows, columns)
    ensures var a := IndexToRowCol(from, columns);
            var to := CalculateWorkspace(dir, from, nWorkspaces, rows, columns, w, overrideScroll);
            match EffectiveDirection(dir, w, overrideScroll)
            case Left => to == (if a.row == 0 then nWorkspaces - 1 else (a.row - 1) * columns + columns - 1)
            case Right => to == (if a.row == rows - 1 then 0 else (a.row + 1) * columns)
            case Up => to == (if a.col == 0 then nWorkspaces - 1 else (rows - 1) * columns + a.col - 1)
            case Down => to == (if a.col == columns - 1 then 0 else a.col + 1)
  {
    var d := EffectiveDirection(dir, w, overrideScroll);
    NeighborStep(d, from, rows, columns);
    var a := IndexToRowCol(from, columns);
    InGridRow(from, rows, columns);
    var c := WrapCell(d, a, rows, columns, false);
    if 0 <= c.row < rows && 0 <= c.col < columns {
      MulStep(c.row, rows, columns);
    }
  }

  /** The wrap step from inside a grid under the cap, on a host holding
      exactly the grid's workspaces, lands inside the grid. */
  lemma WrapIndexInGrid(dir: Direction, from: nat, rows: int, columns: int, same: bool)
    requires InGrid(from, rows, columns)
    ensures 0 <= WrapIndex(dir, from, rows * columns, rows, columns, same) < rows * columns
  {
    var c := WrapCell(dir, IndexToRowCol(from, columns), rows, columns, same);
    if 0 <= c.row < rows && 0 <= c.col < columns {
      MulStep(c.row, rows, columns);
    }
  }

  /** Once the host holds exactly the grid's workspaces, every move from an
      existing workspace names an existing workspace. */
  lemma CalculateStaysInGrid(dir: Direction, from: nat, rows: int, columns: int,
                             w: WrapSettings, overrideScroll: bool)
    requires InGrid(from, rows, columns)
    ensures 0 <= CalculateWorkspace(dir, from, rows * columns, rows, columns, w, overrideScroll) < rows * columns
  {
    var d := EffectiveDirection(dir, w, overrideScroll);
    if !w.wraparound || Neighbor(d, from, rows, columns) != from {
      NeighborStep(d, from, rows, columns);
    } else {
      WrapIndexInGrid(d, from, rows, columns, EffectiveWrapToSame(w, overrideScroll));
    }
  }

  /** The smallest row count whose grid reaches the cap, `Math.ceil(36 / columns)`. */
  function CeilRows(columns: int): (r: int)
    requires columns >= 1
    ensures r >= 1
    ensures r * columns >= MaxWorkspaces
    ensures (r - 1) * columns < MaxWorkspaces
  {
    var r := (MaxWorkspaces + columns - 1) / columns;
    assert r * columns > MaxWorkspaces - 1 by {
      assert (MaxWorkspaces + columns - 1) - r * columns < columns;
    }
    r
  }

  /** The rows clamp of `exportFunctionsAndConstants`: when the grid has more
      cells than the cap, the row count drops to the fewest rows that still
      cover the cap, never rising. The last row may then be partly past the
      cap, so the clamped grid can still hold more than `MaxWorkspaces` cells. */
  function ClampRows(rows: int, columns: int): (r: int)
    requires rows >= 1 && columns >= 1
    ensures rows * columns <= MaxWorkspaces ==> r == rows
    ensures rows * columns > MaxWorkspaces ==>
              1 <= r <= rows && (r - 1) * columns < MaxWorkspaces <= r * columns
  {
    if rows * columns > MaxWorkspaces then
      var r := CeilRows(columns);
      assert r <= rows by {
        if rows < r {
          MulStep(rows - 1, r - 1, columns);
          MulStep(rows - 1, rows, columns);
        }
      }
      r
    else rows
  }

  /** Five columns and ten rows clamp to eight rows: forty cells, four past the cap. */
  lemma ClampCanExceedCap()
    ensures ClampRows(10, 5) == 8 && 8 * 5 > MaxWorkspaces
  {
  }

  /** The 2 x 4 case without wraparound: Left at workspace 0 stays put. */
  lemma TwoByFourNoWrap()
    ensures CalculateWorkspace(Left, 0, 8, 2, 4, WrapSettings(false, true, true, "vertical"), false) == 0
  {
    CellOfIndex(0, 0, 4);
  }

  /** The 2 x 4 case that keeps the line: Right from the end of row 0 wraps
      to the start of row 0. */
  lemma TwoByFourKeepLine()
    ensures CalculateWorkspace(Right, 3, 8, 2, 4, WrapSettings(true, true, true, "vertical"), false) == 0
  {
    CellOfIndex(0, 3, 4);
    assert Neighbor(Right, 3, 2, 4) == 3;
  }

  /** The 2 x 4 cases that leave the line: Right from the end of row 0 goes
      to the start of row 1; Left from workspace 0 saturates to the last. */
  lemma TwoByFourNextLine()
    ensures CalculateWorkspace(Right, 3, 8, 2, 4, WrapSettings(true, false, true, "vertical"), false) == 4
    ensures CalculateWorkspace(Left, 0, 8, 2, 4, WrapSettings(true, false, true, "vertical"), false) == 7
  {
    CellOfIndex(0, 0, 4);
    CellOfIndex(0, 3, 4);
  }

  /** Scrolling down on a horizontal axis moves right, and wraps to the row
      start only when wrap-to-same also holds for scrolling. */
  lemma TwoByFourScroll()
    ensures CalculateWorkspace(Down, 3, 8, 2, 4, WrapSettings(true, true, true, "horizontal"), true) == 0
    ensures CalculateWorkspace(Down, 3, 8, 2, 4, WrapSettings(true, true, false, "horizontal"), true) == 4
  {
    CellOfIndex(0, 3, 4);
    assert ScrollDirection(Down, "horizontal") == Right;
  }

  /** On the grid the rows clamp leaves for 10 x 5 (8 x 5, 40 cells), Up
      from workspace 3 with wrap-to-same aims at row 7, column 3: index 38,
      past the cap, so the result is the -1 sentinel. */
  lemma ClampedGridWrapPastCap()
    ensures !InGrid(3, ClampRows(10, 5), 5)
    ensures CalculateWorkspace(Up, 3, 40, ClampRows(10, 5), 5, WrapSettings(true, true, true, "vertical"), false) == -1
  {
    CellOfIndex(0, 3, 5);
    assert Neighbor(Up, 3, 8, 5) == 3;
  }

  /** In a 2 x 2 grid on a host with 10 workspaces, Right from workspace 5
      (row 2, past the grid's last row) wraps with wrap-to-same to 0. */
  lemma WrapFromPastGrid()
    ensures !InGrid(5, 2, 2)
    ensures CalculateWorkspace(Right, 5, 10, 2, 2, WrapSettings(true, true, true, "vertical"), false) == 0
  {
    CellOfIndex(2, 1, 2);
    assert Neighbor(Right, 5, 2, 2) == 5;
  }
}
