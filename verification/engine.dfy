/**
 The stepping rule of `nextGen` (index.js:45-98), stated per cell. Every write of
 `nextGen` sets a cell of the fresh next grid to `true`, and every occupancy test
 reads the current grid only, so the next grid is the set of destinations of the
 live cells, each computed on its own. `Step` is that union.
 */
module Engine {
  import opened Wrappers
  import opened Grids
  import opened Direction

  /** The state `nextGen` reads and replaces: dimensions, orientation pair, grid. */
  datatype Canvas = Canvas(rows: nat, columns: nat, xOrientation: Sign, yOrientation: Sign, grid: Grid) {
    predicate Valid() {
      IsGrid(grid, rows, columns)
    }
  }

  /** `nextGen` assigns into `nextGrid[row + nextYNeighbor]` for a row index the
      array does not have; JavaScript raises a TypeError there. */
  datatype StepError = UndefinedRow

  /** What happens to one live cell: it is written at a position of the next grid,
      it is written nowhere, or the write it attempts throws. */
  datatype Fate = Lands(at: Cell) | Vanishes | Throws

  /** `isYOutOfBounds`: one vertical step from `row` leaves the grid. For an
      in-range row this is the edge row the particle moves toward: row 0 when
      moving up, the last row when moving down. */
  function IsYOutOfBounds(cv: Canvas, row: int): (out: bool)
    ensures 0 <= row < cv.rows ==>
      (out <==> row == if cv.yOrientation == 1 then 0 else cv.rows - 1)
  {
    var target := row + NextYNeighbor(cv.yOrientation);
    target < 0 || target >= cv.rows
  }

  /** `isXOutOfBounds`: one horizontal step from `column` leaves the grid. For an
      in-range column this is exactly the rail. */
  function IsXOutOfBounds(cv: Canvas, column: int): (out: bool)
    ensures 0 <= column < cv.columns ==>
      (out <==> IsTheLastColumn(cv.xOrientation, cv.columns, column))
  {
    var target := column + NextXNeighbor(cv.xOrientation);
    target < 0 || target >= cv.columns
  }

  /** `hasYNeighbor`: the cell one vertical step away is occupied in the current grid. */
  function HasYNeighbor(cv: Canvas, cell: Cell): (occupied: bool)
    requires cv.Valid() && InBounds(cell, cv.rows, cv.columns)
    ensures occupied <==> Cell(cell.row + NextYNeighbor(cv.yOrientation), cell.column) in LiveCells(cv.grid)
  {
    !IsYOutOfBounds(cv, cell.row) && cv.grid[cell.row + NextYNeighbor(cv.yOrientation)][cell.column]
  }

  /** `hasXNeighbor`: the cell one horizontal step away is occupied in the current grid. */
  function HasXNeighbor(cv: Canvas, cell: Cell): (occupied: bool)
    requires cv.Valid() && InBounds(cell, cv.rows, cv.columns)
    ensures occupied <==> Cell(cell.row, cell.column + NextXNeighbor(cv.xOrientation)) in LiveCells(cv.grid)
  {
    !IsXOutOfBounds(cv, cell.column) && cv.grid[cell.row][cell.column + NextXNeighbor(cv.xOrientation)]
  }

  /** `nextGrid[row][column] = true` on a fresh `rows`-row grid: it sets that cell
      when the row exists and throws when `nextGrid[row]` is undefined. */
  function WriteAt(cv: Canvas, row: int, column: int): (f: Fate)
    ensures f.Throws? <==> row < 0 || row >= cv.rows
    ensures f.Lands? ==> f.at == Cell(row, column)
    ensures !f.Vanishes?
  {
    if 0 <= row < cv.rows then Lands(Cell(row, column)) else Throws
  }

  /** The fate of the particle at `cell`, following the branches of index.js:66-93. */
  function FateOf(cv: Canvas, cell: Cell): (f: Fate)
    requires cv.Valid() && InBounds(cell, cv.rows, cv.columns)
    // every write that happens stays inside the grid, columns included
    ensures f.Lands? ==> InBounds(f.at, cv.rows, cv.columns)
    // a particle moves at most one step along each axis, only in the orientation's direction
    ensures f.Lands? ==> f.at.row == cell.row || f.at.row == cell.row + NextYNeighbor(cv.yOrientation)
    ensures f.Lands? ==> f.at.column == cell.column || f.at.column == cell.column + NextXNeighbor(cv.xOrientation)
    // a written particle moves vertically exactly when the cell one row on exists and is empty now
    ensures f.Lands? ==>
      (f.at.row == cell.row + NextYNeighbor(cv.yOrientation) <==> !IsYOutOfBounds(cv, cell.row) && !HasYNeighbor(cv, cell))
    // it moves horizontally exactly when it is off the rail and the cell one column on is empty now
    ensures f.Lands? ==>
      (f.at.column == cell.column + NextXNeighbor(cv.xOrientation) <==>
       !IsTheLastColumn(cv.xOrientation, cv.columns, cell.column) && !HasXNeighbor(cv, cell))
    // a particle on the rail is always written somewhere
    ensures IsTheLastColumn(cv.xOrientation, cv.columns, cell.column) ==> f.Lands?
    // the write throws exactly when an off-rail particle is on the row edge it moves toward
    ensures f.Throws? <==> !IsTheLastColumn(cv.xOrientation, cv.columns, cell.column) && IsYOutOfBounds(cv, cell.row)
    // a particle is lost exactly when it is off the rail and boxed in on both axes
    ensures f.Vanishes? <==>
      !IsTheLastColumn(cv.xOrientation, cv.columns, cell.column) && HasXNeighbor(cv, cell) && HasYNeighbor(cv, cell)
  {
    var dy := NextYNeighbor(cv.yOrientation);
    var dx := NextXNeighbor(cv.xOrientation);
    var hasY := HasYNeighbor(cv, cell);
    var hasX := HasXNeighbor(cv, cell);
    if IsTheLastColumn(cv.xOrientation, cv.columns, cell.column) then
      if !IsYOutOfBounds(cv, cell.row) && !hasY then Lands(Cell(cell.row + dy, cell.column)) else Lands(cell)
    else if !hasX && !hasY then WriteAt(cv, cell.row + dy, cell.column + dx)
    else if !hasY then WriteAt(cv, cell.row + dy, cell.column)
    else if !hasX then Lands(Cell(cell.row, cell.column + dx))
    else Vanishes
  }

  /** A live cell of the current grid whose particle the step writes at `target`. */
  predicate Claimed(cv: Canvas, target: Cell)
    requires cv.Valid()
  {
    exists r, c | 0 <= r < cv.rows && 0 <= c < cv.columns ::
      cv.grid[r][c] && FateOf(cv, Cell(r, c)) == Lands(target)
  }

  /** Some live cell's write throws. */
  predicate StepThrows(cv: Canvas)
    requires cv.Valid()
  {
    exists r, c | 0 <= r < cv.rows && 0 <= c < cv.columns :: cv.grid[r][c] && FateOf(cv, Cell(r, c)).Throws?
  }

  /** One generation: the next grid holds a particle exactly where some live cell
      of the current grid is written, unless one of those writes throws. */
  function Step(cv: Canvas): (r: Result<Canvas, StepError>)
    requires cv.Valid()
    ensures r.Failure? <==>
      exists row, column | 0 <= row < cv.rows && 0 <= column < cv.columns ::
        cv.grid[row][column] && !IsTheLastColumn(cv.xOrientation, cv.columns, column) && IsYOutOfBounds(cv, row)
    ensures r.Success? ==> r.value.Valid() && r.value == cv.(grid := r.value.grid)
  {
    if StepThrows(cv) then Failure(UndefinedRow)
    else
      Success(cv.(grid := seq(cv.rows, r requires 0 <= r < cv.rows =>
                               seq(cv.columns, c requires 0 <= c < cv.columns => Claimed(cv, Cell(r, c))))))
  }
}
