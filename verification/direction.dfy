/**
 The mapping from the orientation pair to a one-cell step and to the rail column
 (index.js:56-61). Row indices grow downwards, so `yOrientation == 1` moves a
 particle up a row and `yOrientation == -1` moves it down.
 */
module Direction {

  /** An orientation component. The program only ever stores -1 or 1
      (index.js:14, 16, 158-159). */
  type Sign = o: int | o == -1 || o == 1 witness 1

  /** `nextYNeighbor`: the row offset a particle moves by; opposite to `yOrientation`. */
  function NextYNeighbor(yOrientation: Sign): (dy: int)
    ensures dy + yOrientation == 0
  {
    if yOrientation == 1 then -1 else 1
  }

  /** `nextXNeighbor`: the column offset a particle moves by; equal to `xOrientation`. */
  function NextXNeighbor(xOrientation: Sign): (dx: int)
    ensures dx == xOrientation
  {
    if xOrientation == 1 then 1 else -1
  }

  /** `isTheLastColumn`: whether `column` is the rail, the edge column in the
      direction of horizontal travel. For an in-range column this is exactly the
      case where one more horizontal step would leave the grid. */
  predicate IsTheLastColumn(xOrientation: Sign, columns: nat, column: int)
    ensures 0 <= column < columns ==>
      (IsTheLastColumn(xOrientation, columns, column) <==>
       !(0 <= column + NextXNeighbor(xOrientation) < columns))
  {
    if xOrientation == -1 then column == 0 else column == columns - 1
  }
}
