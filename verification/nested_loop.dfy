/**
 `nextGen` as written: a row-major nested loop over the current grid that fills a
 fresh grid in place (index.js:45-98), proved to compute `Engine.Step`.
 */
module NestedLoop {
  import opened Wrappers
  import opened Grids
  import opened Direction
  import opened Engine

  /** `a` is visited before `b` in the row-major scan. */
  predicate ScannedBefore(a: Cell, b: Cell) {
    a.row < b.row || (a.row == b.row && a.column < b.column)
  }

  /** A live cell visited before `limit` is written at `target`. */
  ghost predicate ClaimedBefore(cv: Canvas, limit: Cell, target: Cell)
    requires cv.Valid()
  {
    exists r, c | 0 <= r < cv.rows && 0 <= c < cv.columns && ScannedBefore(Cell(r, c), limit) ::
      cv.grid[r][c] && FateOf(cv, Cell(r, c)) == Lands(target)
  }

  /** No live cell visited before `limit` throws. */
  ghost predicate NoThrowBefore(cv: Canvas, limit: Cell)
    requires cv.Valid()
  {
    forall r, c | 0 <= r < cv.rows && 0 <= c < cv.columns && ScannedBefore(Cell(r, c), limit) ::
      cv.grid[r][c] ==> !FateOf(cv, Cell(r, c)).Throws?
  }

  /** Visiting one more cell adds exactly that cell's destination. */
  lemma ClaimedAdvance(cv: Canvas, limit: Cell, target: Cell)
    requires cv.Valid() && InBounds(limit, cv.rows, cv.columns)
    ensures ClaimedBefore(cv, Cell(limit.row, limit.column + 1), target) <==>
      ClaimedBefore(cv, limit, target) || (cv.grid[limit.row][limit.column] && FateOf(cv, limit) == Lands(target))
  {
    if ClaimedBefore(cv, Cell(limit.row, limit.column + 1), target) {
      var r, c :| 0 <= r < cv.rows && 0 <= c < cv.columns && ScannedBefore(Cell(r, c), Cell(limit.row, limit.column + 1))
        && cv.grid[r][c] && FateOf(cv, Cell(r, c)) == Lands(target);
      if Cell(r, c) != limit {
        assert ScannedBefore(Cell(r, c), limit);
      }
    }
  }

  /** `g` holds exactly the writes of the live cells visited before `limit`. */
  ghost predicate FilledUpTo(cv: Canvas, g: Grid, limit: Cell)
    requires cv.Valid()
  {
    && IsGrid(g, cv.rows, cv.columns)
    && forall r, c | 0 <= r < cv.rows && 0 <= c < cv.columns ::
         g[r][c] == ClaimedBefore(cv, limit, Cell(r, c))
  }

  /** Visiting `cell` and performing its write keeps the loop invariant. */
  lemma VisitKeepsInvariant(cv: Canvas, g: Grid, cell: Cell, g': Grid)
    requires cv.Valid() && InBounds(cell, cv.rows, cv.columns)
    requires FilledUpTo(cv, g, cell) && NoThrowBefore(cv, cell)
    requires cv.grid[cell.row][cell.column] ==> !FateOf(cv, cell).Throws?
    requires g' == if cv.grid[cell.row][cell.column] && FateOf(cv, cell).Lands?
                   then Mark(g, cv.rows, cv.columns, FateOf(cv, cell).at) else g
    ensures FilledUpTo(cv, g', Cell(cell.row, cell.column + 1))
    ensures NoThrowBefore(cv, Cell(cell.row, cell.column + 1))
  {
    forall r, c | 0 <= r < cv.rows && 0 <= c < cv.columns
      ensures g'[r][c] == ClaimedBefore(cv, Cell(cell.row, cell.column + 1), Cell(r, c))
    {
      ClaimedAdvance(cv, cell, Cell(r, c));
    }
    forall r, c | 0 <= r < cv.rows && 0 <= c < cv.columns && ScannedBefore(Cell(r, c), Cell(cell.row, cell.column + 1))
      ensures cv.grid[r][c] ==> !FateOf(cv, Cell(r, c)).Throws?
    {
      if Cell(r, c) != cell {
        assert ScannedBefore(Cell(r, c), cell);
      }
    }
  }

  /** Finishing a row keeps the loop invariant for the start of the next one. */
  lemma RowEndKeepsInvariant(cv: Canvas, g: Grid, row: int)
    requires cv.Valid()
    requires FilledUpTo(cv, g, Cell(row, cv.columns)) && NoThrowBefore(cv, Cell(row, cv.columns))
    ensures FilledUpTo(cv, g, Cell(row + 1, 0)) && NoThrowBefore(cv, Cell(row + 1, 0))
  {
  }

  /** The body of the inner loop for one live cell (index.js:56-93): the write it
      performs, `Throws` where the JavaScript assignment throws. */
  method VisitLiveCell(cv: Canvas, cell: Cell) returns (write: Fate)
    requires cv.Valid() && InBounds(cell, cv.rows, cv.columns)
    ensures write == FateOf(cv, cell)
  {
    var row, column := cell.row, cell.column;
    var nextYNeighbor := if cv.yOrientation == 1 then -1 else 1;
    var nextXNeighbor := if cv.xOrientation == 1 then 1 else -1;
    var isTheLastColumn := if cv.xOrientation == -1 then column == 0 else column == cv.columns - 1;
    var isXOutOfBounds := column + nextXNeighbor < 0 || column + nextXNeighbor >= cv.columns;
    var isYOutOfBounds := row + nextYNeighbor < 0 || row + nextYNeighbor >= cv.rows;
    var hasYNeighbor := !isYOutOfBounds && cv.grid[row + nextYNeighbor][column];
    var hasXNeighbor := !isXOutOfBounds && cv.grid[row][column + nextXNeighbor];
    if isTheLastColumn {
      if !isYOutOfBounds && !hasYNeighbor {
        return Lands(Cell(row + nextYNeighbor, column));
      }
      return Lands(cell);
    }
    if !hasXNeighbor && !hasYNeighbor {
      if isYOutOfBounds {
        return Throws;
      }
      return Lands(Cell(row + nextYNeighbor, column + nextXNeighbor));
    }
    if !hasYNeighbor {
      if isYOutOfBounds {
        return Throws;
      }
      return Lands(Cell(row + nextYNeighbor, column));
    }
    if !hasXNeighbor {
      return Lands(Cell(row, column + nextXNeighbor));
    }
    return Vanishes;
  }

  /** The inner loop of index.js:49-94 over one row: the writes of that row's
      live cells, or the failure of the first write that throws. */
  method ScanRow(cv: Canvas, row: int, nextGrid: Grid) returns (outcome: Result<Grid, StepError>)
    requires cv.Valid() && 0 <= row < cv.rows
    requires FilledUpTo(cv, nextGrid, Cell(row, 0)) && NoThrowBefore(cv, Cell(row, 0))
    ensures outcome.Failure? ==> Step(cv) == Failure(UndefinedRow)
    ensures outcome.Success? ==>
      FilledUpTo(cv, outcome.value, Cell(row + 1, 0)) && NoThrowBefore(cv, Cell(row + 1, 0))
  {
    var grid := nextGrid;
    var column := 0;
    while column < cv.columns
      invariant 0 <= column <= cv.columns
      invariant FilledUpTo(cv, grid, Cell(row, column))
      invariant NoThrowBefore(cv, Cell(row, column))
    {
      var cell := Cell(row, column);
      var write: Fate := Vanishes;
      if cv.grid[row][column] {
        write := VisitLiveCell(cv, cell);
        if write.Throws? {
          ThrowFailsStep(cv, cell);
          return Failure(UndefinedRow);
        }
      }
      var before := grid;
      if write.Lands? {
        grid := Mark(grid, cv.rows, cv.columns, write.at);
      }
      VisitKeepsInvariant(cv, before, cell, grid);
      column := column + 1;
    }
    RowEndKeepsInvariant(cv, grid, row);
    return Success(grid);
  }

  /** `nextGen`, the nested loop of index.js:48-95: the rows in order, stopping at
      the first write that throws; on completion the filled grid replaces the old. */
  method NextGen(cv: Canvas) returns (result: Result<Canvas, StepError>)
    requires cv.Valid()
    ensures result == Step(cv)
  {
    var nextGrid := BuildGrid(cv.rows, cv.columns);
    NothingBeforeStart(cv, nextGrid);
    var row := 0;
    while row < cv.rows
      invariant 0 <= row <= cv.rows
      invariant FilledUpTo(cv, nextGrid, Cell(row, 0))
      invariant NoThrowBefore(cv, Cell(row, 0))
    {
      var outcome := ScanRow(cv, row, nextGrid);
      if outcome.Failure? {
        return Failure(UndefinedRow);
      }
      nextGrid := outcome.value;
      row := row + 1;
    }
    StepIsLoopResult(cv, nextGrid);
    result := Success(cv.(grid := nextGrid));
  }

  /** Before the first cell is visited nothing is claimed and nothing has thrown. */
  lemma NothingBeforeStart(cv: Canvas, g: Grid)
    requires cv.Valid() && g == BuildGrid(cv.rows, cv.columns)
    ensures FilledUpTo(cv, g, Cell(0, 0)) && NoThrowBefore(cv, Cell(0, 0))
  {
  }

  /** One live cell whose write throws makes the whole step fail. */
  lemma ThrowFailsStep(cv: Canvas, cell: Cell)
    requires cv.Valid() && InBounds(cell, cv.rows, cv.columns)
    requires cv.grid[cell.row][cell.column] && FateOf(cv, cell).Throws?
    ensures Step(cv) == Failure(UndefinedRow)
  {
  }

  /** Once every cell has been visited without a throw, the filled grid is the
      next grid of `Step`. */
  lemma StepIsLoopResult(cv: Canvas, nextGrid: Grid)
    requires cv.Valid()
    requires FilledUpTo(cv, nextGrid, Cell(cv.rows, 0)) && NoThrowBefore(cv, Cell(cv.rows, 0))
    ensures Step(cv) == Success(cv.(grid := nextGrid))
  {
    assert !StepThrows(cv);
    var n := Step(cv).value.grid;
    forall r | 0 <= r < cv.rows ensures n[r] == nextGrid[r] {
      forall c | 0 <= c < cv.columns ensures n[r][c] == nextGrid[r][c] {
        if Claimed(cv, Cell(r, c)) {
          var r', c' :| 0 <= r' < cv.rows && 0 <= c' < cv.columns && cv.grid[r'][c'] && FateOf(cv, Cell(r', c')) == Lands(Cell(r, c));
          assert ScannedBefore(Cell(r', c'), Cell(cv.rows, 0));
        }
      }
    }
    assert n == nextGrid;
  }
}
