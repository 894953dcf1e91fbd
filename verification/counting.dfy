/**
 What one generation does to the particle count. Each live cell is written at most
 once, so `countElements` never grows; it shrinks exactly when a boxed-in particle
 is dropped or two particles are written to the same cell (index.js:48-95, 113-121).
 */
module Counting {
  import opened Wrappers
  import opened Grids
  import opened Engine

  /** The cells at which the particles of the in-range cells `s` are written. */
  ghost function Destinations(cv: Canvas, s: set<Cell>): set<Cell>
    requires cv.Valid()
  {
    set a | a in s && InBounds(a, cv.rows, cv.columns) && FateOf(cv, a).Lands? :: FateOf(cv, a).at
  }

  /** Some live particle is boxed in on both axes and written nowhere. */
  ghost predicate SomeVanishes(cv: Canvas)
    requires cv.Valid()
  {
    exists a | a in LiveCells(cv.grid) :: InBounds(a, cv.rows, cv.columns) && FateOf(cv, a).Vanishes?
  }

  /** Two different live particles are written to the same cell. */
  ghost predicate SomeMerge(cv: Canvas)
    requires cv.Valid()
  {
    exists a, b | a in LiveCells(cv.grid) && b in LiveCells(cv.grid) ::
      a != b && InBounds(a, cv.rows, cv.columns) && InBounds(b, cv.rows, cv.columns) &&
      FateOf(cv, a).Lands? && FateOf(cv, a) == FateOf(cv, b)
  }

  /** Adding one cell to `s` adds at most its own destination. */
  lemma DestinationsInsert(cv: Canvas, s: set<Cell>, x: Cell)
    requires cv.Valid() && InBounds(x, cv.rows, cv.columns)
    ensures Destinations(cv, s + {x}) ==
      Destinations(cv, s) + (if FateOf(cv, x).Lands? then {FateOf(cv, x).at} else {})
  {
  }

  /** No more destinations than particles. */
  lemma {:induction false} DestinationsBound(cv: Canvas, s: set<Cell>)
    requires cv.Valid()
    requires forall a | a in s :: InBounds(a, cv.rows, cv.columns)
    ensures |Destinations(cv, s)| <= |s|
    decreases s
  {
    if s == {} {
      assert Destinations(cv, s) == {};
    } else {
      var x :| x in s;
      var rest := s - {x};
      DestinationsBound(cv, rest);
      DestinationsInsert(cv, rest, x);
      assert rest + {x} == s;
    }
  }

  /** A particle that is dropped, or that shares its destination with another,
      leaves strictly fewer destinations than particles. */
  lemma DestinationsDrop(cv: Canvas, s: set<Cell>, x: Cell)
    requires cv.Valid()
    requires forall a | a in s :: InBounds(a, cv.rows, cv.columns)
    requires x in s
    requires !FateOf(cv, x).Lands? ||
             exists y | y in s :: y != x && FateOf(cv, y) == FateOf(cv, x)
    ensures |Destinations(cv, s)| < |s|
  {
    var rest := s - {x};
    DestinationsInsert(cv, rest, x);
    assert rest + {x} == s;
    if FateOf(cv, x).Lands? {
      var y :| y in s && y != x && FateOf(cv, y) == FateOf(cv, x);
      assert FateOf(cv, x).at in Destinations(cv, rest) by {
        assert y in rest;
      }
    }
    assert Destinations(cv, s) == Destinations(cv, rest);
    DestinationsBound(cv, rest);
  }

  /** A particle written to a cell no particle of `s` is written to adds a destination. */
  lemma FreshDestination(cv: Canvas, s: set<Cell>, x: Cell)
    requires cv.Valid() && InBounds(x, cv.rows, cv.columns) && FateOf(cv, x).Lands?
    requires forall a | a in s && InBounds(a, cv.rows, cv.columns) :: FateOf(cv, a) != FateOf(cv, x)
    ensures FateOf(cv, x).at !in Destinations(cv, s)
  {
  }

  /** Particles that are all written, to pairwise different cells, keep their number. */
  lemma {:induction false} DestinationsExact(cv: Canvas, s: set<Cell>)
    requires cv.Valid()
    requires forall a | a in s :: InBounds(a, cv.rows, cv.columns) && FateOf(cv, a).Lands?
    requires forall a, b | a in s && b in s && a != b :: FateOf(cv, a) != FateOf(cv, b)
    ensures |Destinations(cv, s)| == |s|
    decreases s
  {
    if s == {} {
      assert Destinations(cv, s) == {};
    } else {
      var x :| x in s;
      var rest := s - {x};
      var d := FateOf(cv, x).at;
      assert |Destinations(cv, rest)| == |rest| by {
        DestinationsExact(cv, rest);
      }
      assert Destinations(cv, s) == Destinations(cv, rest) + {d} by {
        DestinationsInsert(cv, rest, x);
        assert rest + {x} == s;
      }
      assert d !in Destinations(cv, rest) by {
        FreshDestination(cv, rest, x);
      }
    }
  }

  /** The occupied cells of the next grid are exactly the destinations of the
      occupied cells of the current grid. */
  lemma NextLiveCellsAreDestinations(cv: Canvas)
    requires cv.Valid() && Step(cv).Success?
    ensures LiveCells(Step(cv).value.grid) == Destinations(cv, LiveCells(cv.grid))
  {
  }

  /** Every particle of the next grid comes from a particle of the current grid. */
  lemma NextCellHasSource(cv: Canvas, target: Cell)
    requires cv.Valid() && Step(cv).Success?
    requires target in LiveCells(Step(cv).value.grid)
    ensures exists a | a in LiveCells(cv.grid) :: InBounds(a, cv.rows, cv.columns) && FateOf(cv, a) == Lands(target)
  {
    NextLiveCellsAreDestinations(cv);
  }

  /** `countElements` never increases from one generation to the next. */
  lemma CountNeverIncreases(cv: Canvas)
    requires cv.Valid() && Step(cv).Success?
    ensures CountElements(Step(cv).value.grid) <= CountElements(cv.grid)
  {
    NextLiveCellsAreDestinations(cv);
    CountIsCardinality(cv.grid);
    CountIsCardinality(Step(cv).value.grid);
    DestinationsBound(cv, LiveCells(cv.grid));
  }

  /** `countElements` drops exactly when a particle is boxed in or two particles merge. */
  lemma CountDropsIff(cv: Canvas, next: Canvas)
    requires cv.Valid() && Step(cv) == Success(next)
    ensures CountElements(next.grid) < CountElements(cv.grid) <==> SomeVanishes(cv) || SomeMerge(cv)
  {
    var live := LiveCells(cv.grid);
    NextLiveCellsAreDestinations(cv);
    CountIsCardinality(cv.grid);
    CountIsCardinality(Step(cv).value.grid);
    DestinationsBound(cv, live);
    if SomeVanishes(cv) {
      var a :| a in live && InBounds(a, cv.rows, cv.columns) && FateOf(cv, a).Vanishes?;
      DestinationsDrop(cv, live, a);
    } else if SomeMerge(cv) {
      var a, b :| a in live && b in live && a != b && InBounds(a, cv.rows, cv.columns) &&
        InBounds(b, cv.rows, cv.columns) && FateOf(cv, a).Lands? && FateOf(cv, a) == FateOf(cv, b);
      DestinationsDrop(cv, live, a);
    } else {
      forall a | a in live ensures InBounds(a, cv.rows, cv.columns) && FateOf(cv, a).Lands? {
        assert cv.grid[a.row][a.column];
        assert !FateOf(cv, a).Throws? by {
          assert !StepThrows(cv);
        }
      }
      DestinationsExact(cv, live);
    }
  }

  /** Without a boxed-in particle or a merge, `countElements` is conserved. */
  lemma CountConservedWithoutLoss(cv: Canvas, next: Canvas)
    requires cv.Valid() && Step(cv) == Success(next)
    requires !SomeVanishes(cv) && !SomeMerge(cv)
    ensures CountElements(next.grid) == CountElements(cv.grid)
  {
    CountDropsIff(cv, next);
    CountNeverIncreases(cv);
  }

  /** An empty grid stays empty, whatever the orientation. */
  lemma EmptyStaysEmpty(cv: Canvas)
    requires cv.Valid() && LiveCells(cv.grid) == {}
    ensures Step(cv) == Success(cv.(grid := BuildGrid(cv.rows, cv.columns)))
  {
    forall r, c | 0 <= r < cv.rows && 0 <= c < cv.columns ensures !cv.grid[r][c] {
      assert Cell(r, c) !in LiveCells(cv.grid);
    }
    assert !StepThrows(cv);
    var next := Step(cv).value.grid;
    var empty := BuildGrid(cv.rows, cv.columns);
    forall r | 0 <= r < cv.rows ensures next[r] == empty[r] {
      forall c | 0 <= c < cv.columns ensures next[r][c] == empty[r][c] {
        assert !Claimed(cv, Cell(r, c));
      }
    }
    assert next == empty;
  }
}
