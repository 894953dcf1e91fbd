/**
 The scan order of `nextGen` does not matter. Its occupancy tests read only the
 current grid and every write sets a cell to `true`, so visiting the cells in any
 order that reaches each of them yields the same next grid and the same failure
 (index.js:48-54, 63-64). `Paint` performs the writes in a given order.
 */
module ScanOrder {
  import opened Wrappers
  import opened Grids
  import opened Engine

  predicate AllInBounds(cv: Canvas, order: seq<Cell>) {
    forall i | 0 <= i < |order| :: InBounds(order[i], cv.rows, cv.columns)
  }

  /** Visits the cells of `order` one after the other, writing each live cell's
      particle into `acc`; stops with the failure at the first write that throws. */
  function Paint(cv: Canvas, acc: Grid, order: seq<Cell>): (r: Result<Grid, StepError>)
    requires cv.Valid() && IsGrid(acc, cv.rows, cv.columns) && AllInBounds(cv, order)
    ensures r.Success? ==> IsGrid(r.value, cv.rows, cv.columns)
    decreases |order|
  {
    if |order| == 0 then Success(acc)
    else
      var cell := order[0];
      if !cv.grid[cell.row][cell.column] then Paint(cv, acc, order[1..])
      else match FateOf(cv, cell)
        case Throws => Failure(UndefinedRow)
        case Vanishes => Paint(cv, acc, order[1..])
        case Lands(at) => Paint(cv, Mark(acc, cv.rows, cv.columns, at), order[1..])
  }

  /** Some live cell listed in `order` is written at `target`. */
  ghost predicate ClaimedIn(cv: Canvas, order: seq<Cell>, target: Cell)
    requires cv.Valid() && AllInBounds(cv, order)
  {
    exists i | 0 <= i < |order| :: cv.grid[order[i].row][order[i].column] && FateOf(cv, order[i]) == Lands(target)
  }

  /** Some live cell listed in `order` throws. */
  ghost predicate ThrowsIn(cv: Canvas, order: seq<Cell>)
    requires cv.Valid() && AllInBounds(cv, order)
  {
    exists i | 0 <= i < |order| :: cv.grid[order[i].row][order[i].column] && FateOf(cv, order[i]).Throws?
  }

  /** A throwing live cell of `order` is its first cell or one of the rest. */
  lemma ThrowsInFirstOrRest(cv: Canvas, order: seq<Cell>)
    requires cv.Valid() && AllInBounds(cv, order) && |order| > 0
    ensures ThrowsIn(cv, order) <==>
      (cv.grid[order[0].row][order[0].column] && FateOf(cv, order[0]).Throws?) || ThrowsIn(cv, order[1..])
  {
  }

  /** A live cell of `order` written at `target` is its first cell or one of the rest. */
  lemma ClaimedInFirstOrRest(cv: Canvas, order: seq<Cell>, target: Cell)
    requires cv.Valid() && AllInBounds(cv, order) && |order| > 0
    ensures ClaimedIn(cv, order, target) <==>
      (cv.grid[order[0].row][order[0].column] && FateOf(cv, order[0]) == Lands(target)) || ClaimedIn(cv, order[1..], target)
  {
  }

  /** Painting fails exactly when a listed live cell throws; otherwise it adds to
      `acc` the destinations of the listed live cells and nothing else. */
  lemma {:induction false} PaintAddsDestinations(cv: Canvas, acc: Grid, order: seq<Cell>)
    requires cv.Valid() && IsGrid(acc, cv.rows, cv.columns) && AllInBounds(cv, order)
    ensures Paint(cv, acc, order).Failure? <==> ThrowsIn(cv, order)
    ensures Paint(cv, acc, order).Success? ==>
      forall r, c | 0 <= r < cv.rows && 0 <= c < cv.columns ::
        Paint(cv, acc, order).value[r][c] == (acc[r][c] || ClaimedIn(cv, order, Cell(r, c)))
    decreases |order|
  {
    if |order| > 0 {
      var cell, rest := order[0], order[1..];
      var live := cv.grid[cell.row][cell.column];
      var fate := FateOf(cv, cell);
      var acc' := if live && fate.Lands? then Mark(acc, cv.rows, cv.columns, fate.at) else acc;
      ThrowsInFirstOrRest(cv, order);
      if !(live && fate.Throws?) {
        assert Paint(cv, acc, order) == Paint(cv, acc', rest);
        PaintAddsDestinations(cv, acc', rest);
        forall r, c | 0 <= r < cv.rows && 0 <= c < cv.columns
          ensures ClaimedIn(cv, order, Cell(r, c)) <==>
            (live && fate == Lands(Cell(r, c))) || ClaimedIn(cv, rest, Cell(r, c))
        {
          ClaimedInFirstOrRest(cv, order, Cell(r, c));
        }
      }
    }
  }

  /** An order that visits every cell lists a throwing live cell exactly when
      `Step` has one. */
  lemma CoveringOrderThrows(cv: Canvas, order: seq<Cell>)
    requires cv.Valid() && AllInBounds(cv, order)
    requires forall r, c | 0 <= r < cv.rows && 0 <= c < cv.columns :: Cell(r, c) in order
    ensures ThrowsIn(cv, order) <==> StepThrows(cv)
  {
  }

  /** An order that visits every cell lists a live cell written at `target`
      exactly when `Step` claims `target`. */
  lemma CoveringOrderClaims(cv: Canvas, order: seq<Cell>, target: Cell)
    requires cv.Valid() && AllInBounds(cv, order)
    requires forall r, c | 0 <= r < cv.rows && 0 <= c < cv.columns :: Cell(r, c) in order
    ensures ClaimedIn(cv, order, target) <==> Claimed(cv, target)
  {
  }

  /** Any order that visits every cell, in any sequence and even more than once,
      gives the result of `Step`. */
  lemma ScanOrderIrrelevant(cv: Canvas, order: seq<Cell>)
    requires cv.Valid() && AllInBounds(cv, order)
    requires forall r, c | 0 <= r < cv.rows && 0 <= c < cv.columns :: Cell(r, c) in order
    ensures Paint(cv, BuildGrid(cv.rows, cv.columns), order).Failure? <==> Step(cv).Failure?
    ensures Step(cv).Success? ==> Paint(cv, BuildGrid(cv.rows, cv.columns), order) == Success(Step(cv).value.grid)
  {
    var empty := BuildGrid(cv.rows, cv.columns);
    PaintAddsDestinations(cv, empty, order);
    CoveringOrderThrows(cv, order);
    if Step(cv).Success? {
      var painted := Paint(cv, empty, order).value;
      var next := Step(cv).value.grid;
      forall r | 0 <= r < cv.rows ensures painted[r] == next[r] {
        forall c | 0 <= c < cv.columns ensures painted[r][c] == next[r][c] {
          CoveringOrderClaims(cv, order, Cell(r, c));
        }
      }
      assert painted == next;
    }
  }
}
