/**
 * Worked submissions: what validateForm reports on small concrete grids.
 */
module Examples {
  import opened Grid
  import opened Validation

  /** A row of twelve months with the months lo..hi filled in. */
  function Filled(lo: nat, hi: nat): (row: Row)
    ensures |row| == MonthCount
    ensures forall c :: 0 <= c < MonthCount ==> (row[c].Value? <==> lo <= c <= hi)
  {
    seq(MonthCount, c requires 0 <= c => if lo <= c <= hi then Value(1.0) else Unfilled)
  }

  /** A one-year form of three tables: March–June, April–May, and nothing at all. */
  function OneYearGrid(): Values
  {
    [[Filled(2, 5)], [Filled(3, 4)], [Filled(1, 0)]]
  }

  lemma {:induction false} OneYearGridFilled(t: nat, c: nat)
    requires t < |OneYearGrid()| && FilledAt(OneYearGrid()[t], Coord(0, c))
    ensures 2 <= c <= 5
  {
    assert t == 0 || t == 1 || t == 2;
  }

  lemma {:induction false} OneYearGridShape()
    ensures Shaped(OneYearGrid(), 3, 1) && !AllUnfilled(OneYearGrid())
    ensures FilledAt(OneYearGrid()[0], Coord(0, 2)) && FilledAt(OneYearGrid()[0], Coord(0, 5))
  {
    assert OneYearGrid()[0][0][2] != Unfilled;
  }

  /** The shared period of the grid is March–June. */
  lemma {:induction false} OneYearGridBounds()
    ensures LowerBound(OneYearGrid()) == Some(2) && UpperBound(OneYearGrid()) == Some(5)
  {
    var values := OneYearGrid();
    OneYearGridShape();
    SomeTableFilled(values, 3);
    BoundsOrdered(values);
    forall t, c | 0 <= t < |values| && FilledAt(values[t], Coord(0, c))
      ensures 2 <= c <= 5
    {
      OneYearGridFilled(t, c);
    }
    assert LowerBound(values).value == 2 by {
      LowerBoundIff(values, 1);
      LowerBoundIff(values, 2);
    }
    assert UpperBound(values).value == 5 by {
      UpperBoundIff(values, 5);
      UpperBoundIff(values, 6);
    }
  }

  /** On that grid the second table is marked in March and June and the empty
      third table in all four months; the first table is not marked. */
  lemma {:induction false} OneYearPeriodsMatch(p: Pos)
    ensures !ValidationErrors("submit", OneYearGrid(), 3, 1).structural
    ensures p in ValidationErrors("submit", OneYearGrid(), 3, 1).cells <==>
      p.row == 0 && ((p.table == 1 && (p.column == 2 || p.column == 5)) || (p.table == 2 && 2 <= p.column <= 5))
  {
    OneYearGridShape();
    OneYearGridBounds();
    SingleRowErrors(OneYearGrid(), 3);
    RangeFlagsMember(OneYearGrid(), 2, 5, p);
  }

  /** A two-year table filled only in November of the first year and February
      of the second: the span runs across the row boundary, so December of the
      first year and January of the second are marked. */
  lemma {:induction false} SpanCrossesYears()
    ensures ValidationErrors("submit", [[Filled(10, 10), Filled(1, 1)]], 1, 2)
         == Errors(false, {Pos(0, 0, 11), Pos(0, 1, 0)})
  {
    var values := [[Filled(10, 10), Filled(1, 1)]];
    var table := values[0];
    var expected := {Pos(0, 0, 11), Pos(0, 1, 0)};
    assert FilledAt(table, Coord(0, 10)) && FilledAt(table, Coord(1, 1));
    assert Shaped(values, 1, 2);
    StructuralIffAllEmpty(values, 1, 2);
    FirstIs(table, Coord(0, 10));
    LastIs(table, Coord(1, 1));
    forall p
      ensures p in SpanGaps(values) <==> p in expected
    {
      SpanGapsMember(values, p);
    }
  }
}
