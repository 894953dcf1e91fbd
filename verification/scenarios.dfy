/**
 Concrete generations of the rule as written, on small grids.
 */
module Scenarios {
  import opened Wrappers
  import opened Grids
  import opened Engine
  import opened Counting

  /** A 3 x 3 grid whose only particle sits in the middle, orientation (1, 1):
      the particle moves one row up and one column right. */
  lemma SingleParticleMovesUpRight()
    ensures
      var cv := Canvas(3, 3, 1, 1, [[false, false, false], [false, true, false], [false, false, false]]);
      Step(cv) == Success(cv.(grid := [[false, false, true], [false, false, false], [false, false, false]]))
  {
    var cv := Canvas(3, 3, 1, 1, [[false, false, false], [false, true, false], [false, false, false]]);
    var expected := [[false, false, true], [false, false, false], [false, false, false]];
    assert FateOf(cv, Cell(1, 1)) == Lands(Cell(0, 2));
    forall r, c | 0 <= r < 3 && 0 <= c < 3 && cv.grid[r][c] ensures r == 1 && c == 1 {
      assert r == 0 || r == 1 || r == 2;
      assert c == 0 || c == 1 || c == 2;
    }
    assert !StepThrows(cv);
    var next := Step(cv).value.grid;
    forall r | 0 <= r < 3 ensures next[r] == expected[r] {
      forall c | 0 <= c < 3 ensures next[r][c] == expected[r][c] {
        assert r == 0 || r == 1 || r == 2;
        assert c == 0 || c == 1 || c == 2;
      }
    }
    assert next == expected;
  }

  /** A 3 x 3 grid, orientation (1, -1), whose only particle is in the bottom-left
      corner: it is off the rail and its row has no row below, so the step fails. */
  lemma BottomRowParticleThrows()
    ensures Step(Canvas(3, 3, 1, -1, [[false, false, false], [false, false, false], [true, false, false]])).Failure?
  {
    var cv := Canvas(3, 3, 1, -1, [[false, false, false], [false, false, false], [true, false, false]]);
    assert cv.grid[2][0] && FateOf(cv, Cell(2, 0)).Throws?;
  }

  /** The particle counts before and after the boxed-in scenario's step, read
      off the grids' occupied positions. */
  lemma BoxedCounts()
    ensures CountElements([[true, true], [true, false], [false, false]]) == 3
    ensures CountElements([[false, false], [false, true], [false, true]]) == 2
  {

  }

  /** The three particles of the boxed-in scenario and what becomes of each. */
  lemma BoxedSources(cv: Canvas)
    requires cv == Canvas(3, 2, 1, -1, [[true, true], [true, false], [false, false]])
    ensures FateOf(cv, Cell(0, 0)) == Vanishes
    ensures FateOf(cv, Cell(0, 1)) == Lands(Cell(1, 1))
    ensures FateOf(cv, Cell(1, 0)) == Lands(Cell(2, 1))
    ensures forall r, c :: 0 <= r < 3 && 0 <= c < 2 && cv.grid[r][c] ==>
      (r == 0 && c == 0) || (r == 0 && c == 1) || (r == 1 && c == 0)
    ensures !StepThrows(cv)
  {

  }

  /** One row of the grid after the boxed-in scenario's step. */
  lemma BoxedNextRow(cv: Canvas, r: int)
    requires cv == Canvas(3, 2, 1, -1, [[true, true], [true, false], [false, false]])
    requires 0 <= r < 3
    ensures Step(cv).Success?
    ensures Step(cv).value.grid[r] == [[false, false], [false, true], [false, true]][r]
  {
    var expected := [[false, false], [false, true], [false, true]];
    BoxedSources(cv);
    var next := Step(cv).value.grid;
    forall c | 0 <= c < 2 ensures next[r][c] == expected[r][c] {
      assert r == 0 || r == 1 || r == 2;
      assert c == 0 || c == 1;
    }
  }

  /** A 3 x 2 grid, orientation (1, -1), with particles at (0, 0), (0, 1), (1, 0):
      the particle at (0, 0) is boxed in and lost, the other two move down to the
      right column, so the count drops from 3 to 2. */
  lemma BoxedInParticleIsLost()
    ensures
      var cv := Canvas(3, 2, 1, -1, [[true, true], [true, false], [false, false]]);
      && Step(cv) == Success(cv.(grid := [[false, false], [false, true], [false, true]]))
      && CountElements(cv.grid) == 3
      && CountElements(Step(cv).value.grid) == 2
      && CountElements(Step(cv).value.grid) < CountElements(cv.grid)
  {
    var cv := Canvas(3, 2, 1, -1, [[true, true], [true, false], [false, false]]);
    var expected := [[false, false], [false, true], [false, true]];
    BoxedSources(cv);
    assert Step(cv).value.grid == expected by {
      forall r | 0 <= r < 3 ensures Step(cv).value.grid[r] == expected[r] {
        BoxedNextRow(cv, r);
      }
    }
    BoxedCounts();
  }

  /** The particle counts before and after the merge scenario's step, read off
      the grids' occupied positions. */
  lemma MergeCounts()
    ensures CountElements([[false, true, true], [true, false, false], [true, false, false], [false, false, false]]) == 4
    ensures CountElements([[false, false, false], [false, true, true], [false, false, false], [false, true, false]]) == 3
  {
    var g := [[false, true, true], [true, false, false], [true, false, false], [false, false, false]];
    forall x | x in LiveCells(g) ensures x in {Cell(0, 1), Cell(0, 2), Cell(1, 0), Cell(2, 0)} {
      assert x.row == 0 || x.row == 1 || x.row == 2 || x.row == 3;
      assert x.column == 0 || x.column == 1 || x.column == 2;
    }
    assert g[0][1] && g[0][2] && g[1][0] && g[2][0];
    assert LiveCells(g) == {Cell(0, 1), Cell(0, 2), Cell(1, 0), Cell(2, 0)};
    CountIsCardinality(g);
    var e := [[false, false, false], [false, true, true], [false, false, false], [false, true, false]];
    forall x | x in LiveCells(e) ensures x in {Cell(1, 1), Cell(1, 2), Cell(3, 1)} {
      assert x.row == 0 || x.row == 1 || x.row == 2 || x.row == 3;
      assert x.column == 0 || x.column == 1 || x.column == 2;
    }
    assert e[1][1] && e[1][2] && e[3][1];
    assert LiveCells(e) == {Cell(1, 1), Cell(1, 2), Cell(3, 1)};
    CountIsCardinality(e);
  }

  /** The four particles of the merge scenario and where each is written. */
  lemma MergeSources(cv: Canvas)
    requires cv == Canvas(4, 3, 1, -1, [[false, true, true], [true, false, false], [true, false, false], [false, false, false]])
    ensures FateOf(cv, Cell(0, 1)) == Lands(Cell(1, 1))
    ensures FateOf(cv, Cell(1, 0)) == Lands(Cell(1, 1))
    ensures FateOf(cv, Cell(0, 2)) == Lands(Cell(1, 2))
    ensures FateOf(cv, Cell(2, 0)) == Lands(Cell(3, 1))
    ensures forall r, c :: 0 <= r < 4 && 0 <= c < 3 && cv.grid[r][c] ==>
      (r == 0 && c == 1) || (r == 0 && c == 2) || (r == 1 && c == 0) || (r == 2 && c == 0)
    ensures !StepThrows(cv)
  {

  }

  /** One row of the grid after the merge scenario's step. */
  lemma MergeNextRow(cv: Canvas, r: int)
    requires cv == Canvas(4, 3, 1, -1, [[false, true, true], [true, false, false], [true, false, false], [false, false, false]])
    requires 0 <= r < 4
    ensures Step(cv).Success?
    ensures Step(cv).value.grid[r] == [[false, false, false], [false, true, true], [false, false, false], [false, true, false]][r]
  {
    var expected := [[false, false, false], [false, true, true], [false, false, false], [false, true, false]];
    MergeSources(cv);
    var next := Step(cv).value.grid;
    forall c | 0 <= c < 3 ensures next[r][c] == expected[r][c] {
      assert r == 0 || r == 1 || r == 2 || r == 3;
      assert c == 0 || c == 1 || c == 2;
    }
  }

  /** A 4 x 3 grid, orientation (1, -1), with particles at (0, 1), (0, 2), (1, 0),
      (2, 0): the particles at (0, 1) and (1, 0) are both written to (1, 1) and
      merge, so the count drops from 4 to 3. */
  lemma TwoParticlesMerge()
    ensures
      var cv := Canvas(4, 3, 1, -1, [[false, true, true], [true, false, false], [true, false, false], [false, false, false]]);
      && FateOf(cv, Cell(0, 1)) == FateOf(cv, Cell(1, 0)) == Lands(Cell(1, 1))
      && Step(cv) == Success(cv.(grid := [[false, false, false], [false, true, true], [false, false, false], [false, true, false]]))
      && CountElements(cv.grid) == 4
      && CountElements(Step(cv).value.grid) == 3
      && CountElements(Step(cv).value.grid) < CountElements(cv.grid)
  {
    var cv := Canvas(4, 3, 1, -1, [[false, true, true], [true, false, false], [true, false, false], [false, false, false]]);
    var expected := [[false, false, false], [false, true, true], [false, false, false], [false, true, false]];
    MergeSources(cv);
    assert Step(cv).value.grid == expected by {
      forall r | 0 <= r < 4 ensures Step(cv).value.grid[r] == expected[r] {
        MergeNextRow(cv, r);
      }
    }
    MergeCounts();
  }
}
