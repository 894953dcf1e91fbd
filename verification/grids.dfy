/**
 The particle grid of the canvas: `rows` rows of `columns` booleans, a cell being
 `true` when a particle occupies it. This module builds the empty grid, seeds the
 centre cell and counts live cells (index.js:37-43, 113-121).
 */
module Grids {

  /** A grid is a sequence of rows; row `r`, column `c` is `g[r][c]`. */
  type Grid = seq<seq<bool>>

  /** A grid position. Coordinates are plain integers so that a position one step
      outside the grid can be named. */
  datatype Cell = Cell(row: int, column: int)

  /** `g` has exactly `rows` rows, each of exactly `columns` cells. */
  predicate IsGrid(g: Grid, rows: nat, columns: nat) {
    |g| == rows && forall r :: 0 <= r < |g| ==> |g[r]| == columns
  }

  predicate InBounds(cell: Cell, rows: nat, columns: nat) {
    0 <= cell.row < rows && 0 <= cell.column < columns
  }

  /** The set of occupied positions of `g`. */
  ghost function LiveCells(g: Grid): set<Cell> {
    set r, c | 0 <= r < |g| && 0 <= c < |g[r]| && g[r][c] :: Cell(r, c)
  }

  /** The occupied positions of one row, tagged with that row's index. */
  ghost function RowCells(row: seq<bool>, r: int): set<Cell> {
    set c | 0 <= c < |row| && row[c] :: Cell(r, c)
  }

  /** `buildGrid`: a fresh grid in which no cell is occupied. */
  function BuildGrid(rows: nat, columns: nat): (g: Grid)
    ensures IsGrid(g, rows, columns)
    ensures forall r, c :: 0 <= r < rows && 0 <= c < columns ==> !g[r][c]
    ensures LiveCells(g) == {}
  {
    seq(rows, _ => seq(columns, _ => false))
  }

  /** Sets one in-range cell to `true`, leaving every other cell as it was. */
  function Mark(g: Grid, rows: nat, columns: nat, cell: Cell): (m: Grid)
    requires IsGrid(g, rows, columns) && InBounds(cell, rows, columns)
    ensures IsGrid(m, rows, columns)
    ensures forall r, c :: 0 <= r < rows && 0 <= c < columns ==>
              m[r][c] == (g[r][c] || Cell(r, c) == cell)
  {
    g[cell.row := g[cell.row][cell.column := true]]
  }

  /** `populateGrid`: occupies the centre cell, `parseInt(rows / 2)` and
      `parseInt(columns / 2)`, which for non-negative integers is floor division. */
  function Populate(g: Grid, rows: nat, columns: nat): (p: Grid)
    requires IsGrid(g, rows, columns) && 0 < rows && 0 < columns
    ensures IsGrid(p, rows, columns)
    ensures p[rows / 2][columns / 2]
    ensures LiveCells(p) == LiveCells(g) + {Cell(rows / 2, columns / 2)}
  {
    var p := Mark(g, rows, columns, Cell(rows / 2, columns / 2));
    assert LiveCells(p) == LiveCells(g) + {Cell(rows / 2, columns / 2)} by {
      forall x | x in LiveCells(p) ensures x in LiveCells(g) + {Cell(rows / 2, columns / 2)} {
        assert p[x.row][x.column];
      }
      forall x | x in LiveCells(g) ensures x in LiveCells(p) {
        assert g[x.row][x.column];
      }
    }
    p
  }

  /** Number of `true` cells of one row, summed left to right like the inner
      `reduce` of `countElements`. */
  function RowCount(row: seq<bool>): (n: nat)
    ensures n <= |row|
    ensures n == 0 <==> forall c :: 0 <= c < |row| ==> !row[c]
  {
    if |row| == 0 then 0 else RowCount(row[..|row| - 1]) + (if row[|row| - 1] then 1 else 0)
  }

  /** `countElements`: the row counts summed top to bottom, like the outer `reduce`.
      It is zero exactly for a grid without particles. */
  function CountElements(g: Grid): (n: nat)
    ensures n == 0 <==> forall r, c :: 0 <= r < |g| && 0 <= c < |g[r]| ==> !g[r][c]
  {
    if |g| == 0 then 0 else CountElements(g[..|g| - 1]) + RowCount(g[|g| - 1])
  }

  /** A row's count is the number of its occupied positions. */
  lemma {:induction false} RowCountIsCardinality(row: seq<bool>, r: int)
    ensures RowCount(row) == |RowCells(row, r)|
  {
    if |row| > 0 {
      var n := |row| - 1;
      RowCountIsCardinality(row[..n], r);
      var last := if row[n] then {Cell(r, n)} else {};
      assert RowCells(row, r) == RowCells(row[..n], r) + last by {
        forall x | x in RowCells(row, r) ensures x in RowCells(row[..n], r) + last {
          if x.column < n {
            assert row[..n][x.column] == row[x.column];
          }
        }
        forall x | x in RowCells(row[..n], r) ensures x in RowCells(row, r) {
          assert row[..n][x.column] == row[x.column];
        }
      }
      assert Cell(r, n) !in RowCells(row[..n], r);
    } else {
      assert RowCells(row, r) == {};
    }
  }

  /** `countElements` counts exactly the occupied positions of the grid. */
  lemma {:induction false} CountIsCardinality(g: Grid)
    ensures CountElements(g) == |LiveCells(g)|
  {
    if |g| > 0 {
      var n := |g| - 1;
      CountIsCardinality(g[..n]);
      RowCountIsCardinality(g[n], n);
      assert LiveCells(g) == LiveCells(g[..n]) + RowCells(g[n], n) by {
        forall x | x in LiveCells(g) ensures x in LiveCells(g[..n]) + RowCells(g[n], n) {
          if x.row < n {
            assert g[..n][x.row] == g[x.row];
          }
        }
        forall x | x in LiveCells(g[..n]) ensures x in LiveCells(g) {
          assert g[..n][x.row] == g[x.row];
        }
      }
      assert LiveCells(g[..n]) !! RowCells(g[n], n);
    } else {
      assert LiveCells(g) == {};
    }
  }

  /** A freshly built grid counts zero elements. */
  lemma BuildGridCountsZero(rows: nat, columns: nat)
    ensures CountElements(BuildGrid(rows, columns)) == 0
  {
    CountIsCardinality(BuildGrid(rows, columns));
  }

  /** Seeding a fresh grid leaves exactly one particle, in the centre cell. */
  lemma PopulateFreshGrid(rows: nat, columns: nat)
    requires 0 < rows && 0 < columns
    ensures LiveCells(Populate(BuildGrid(rows, columns), rows, columns)) == {Cell(rows / 2, columns / 2)}
    ensures CountElements(Populate(BuildGrid(rows, columns), rows, columns)) == 1
  {
    CountIsCardinality(Populate(BuildGrid(rows, columns), rows, columns));
  }
}
