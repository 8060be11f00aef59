/**
 * What validateForm reports, as pure functions of the submitted values:
 * the first and last filled cell of a table in row-major order, the empty
 * cells strictly between them, the count of empty tables, the column bounds
 * shared by all tables of a one-year form, and the resulting error set.
 */
module Validation {
  import opened Grid

  /** The errors raised on the form state: the grid-wide "fill out the table"
      error, and the cells marked "Invalid." (a set: Drupal keys errors by
      element name, so marking a cell twice is one error). */
  datatype Errors = Errors(structural: bool, cells: set<Pos>)

  const NoErrors := Errors(false, {})

  // ---------------------------------------------------------------------
  // First and last filled cell of a table

  /** First filled column of `row` at or after column `c`. */
  function FirstInRow(row: Row, c: nat): (f: Option<nat>)
    decreases |row| - c
    ensures f.Some? ==> c <= f.value < |row| && row[f.value].Value?
    ensures forall k :: c <= k < |row| && (f.None? || k < f.value) ==> row[k] == Unfilled
  {
    if c >= |row| then None
    else if row[c].Value? then Some(c)
    else FirstInRow(row, c + 1)
  }

  /** First filled cell, in row-major order, among the rows from `r` on. */
  function FirstFrom(table: Table, r: nat): (f: Option<Coord>)
    decreases |table| - r
    ensures f.Some? ==> r <= f.value.row && FilledAt(table, f.value)
    ensures forall q: Coord :: r <= q.row && FilledAt(table, q) ==> f.Some? && !Before(q, f.value)
  {
    if r >= |table| then None
    else match FirstInRow(table[r], 0)
      case Some(c) => Some(Coord(r, c))
      case None => FirstFrom(table, r + 1)
  }

  /** The first filled cell of a table; None when the table is empty. */
  function First(table: Table): (f: Option<Coord>)
    ensures f.Some? ==> FilledAt(table, f.value)
    ensures forall q :: FilledAt(table, q) ==> f.Some? && !Before(q, f.value)
  {
    FirstFrom(table, 0)
  }

  /** Last filled column of `row` strictly before column `c`. */
  function LastInRow(row: Row, c: nat): (l: Option<nat>)
    requires c <= |row|
    ensures l.Some? ==> l.value < c && row[l.value].Value?
    ensures forall k :: 0 <= k < c && (l.None? || l.value < k) ==> row[k] == Unfilled
  {
    if c == 0 then None
    else if row[c - 1].Value? then Some(c - 1)
    else LastInRow(row, c - 1)
  }

  /** Last filled cell, in row-major order, among the rows before `r`. */
  function LastBefore(table: Table, r: nat): (l: Option<Coord>)
    requires r <= |table|
    ensures l.Some? ==> l.value.row < r && FilledAt(table, l.value)
    ensures forall q: Coord :: q.row < r && FilledAt(table, q) ==> l.Some? && !Before(l.value, q)
  {
    if r == 0 then None
    else match LastInRow(table[r - 1], |table[r - 1]|)
      case Some(c) => Some(Coord(r - 1, c))
      case None => LastBefore(table, r - 1)
  }

  /** The last filled cell of a table; None when the table is empty. */
  function Last(table: Table): (l: Option<Coord>)
    ensures l.Some? ==> FilledAt(table, l.value)
    ensures forall q :: FilledAt(table, q) ==> l.Some? && !Before(l.value, q)
  {
    LastBefore(table, |table|)
  }

  /** A filled cell with nothing filled before it is the first filled cell. */
  lemma {:induction false} FirstIs(table: Table, q: Coord)
    requires FilledAt(table, q)
    requires forall q' :: Before(q', q) ==> !FilledAt(table, q')
    ensures First(table) == Some(q)
  {
  }

  /** A filled cell with nothing filled after it is the last filled cell. */
  lemma {:induction false} LastIs(table: Table, q: Coord)
    requires FilledAt(table, q)
    requires forall q' :: Before(q, q') ==> !FilledAt(table, q')
    ensures Last(table) == Some(q)
  {
  }

  /** A table has a first filled cell exactly when it has a last one. */
  lemma {:induction false} FirstLastTogether(table: Table)
    ensures First(table).Some? <==> Last(table).Some?
    ensures First(table).Some? ==> !Before(Last(table).value, First(table).value)
  {
    if First(table).Some? {
      assert FilledAt(table, First(table).value);
    }
    if Last(table).Some? {
      assert FilledAt(table, Last(table).value);
    }
  }

  // ---------------------------------------------------------------------
  // Span gaps (more than one row per table)

  /** `q` lies strictly between the table's first and last filled cell. */
  predicate InSpan(table: Table, q: Coord)
  {
    First(table).Some? && Last(table).Some?
    && Before(First(table).value, q) && Before(q, Last(table).value)
  }

  /** The empty cells of one table inside its filled span. */
  function TableGaps(index: nat, table: Table): set<Pos>
  {
    set r, c | 0 <= r < |table| && 0 <= c < |table[r]|
                && table[r][c] == Unfilled && InSpan(table, Coord(r, c)) :: Pos(index, r, c)
  }

  /** Membership in `TableGaps`, unfolded. */
  lemma {:induction false} TableGapsMember(index: nat, table: Table, p: Pos)
    ensures p in TableGaps(index, table) <==>
      p.table == index && p.row < |table| && p.column < |table[p.row]|
      && table[p.row][p.column] == Unfilled && InSpan(table, Coord(p.row, p.column))
  {
    if p.table == index && p.row < |table| && p.column < |table[p.row]|
       && table[p.row][p.column] == Unfilled && InSpan(table, Coord(p.row, p.column))
    {
      assert p == Pos(index, p.row, p.column);
    }
  }

  /** The empty cells inside the filled span of their own table, over all tables. */
  function SpanGaps(values: Values): set<Pos>
  {
    set t, r, c | 0 <= t < |values| && 0 <= r < |values[t]| && 0 <= c < |values[t][r]|
                  && values[t][r][c] == Unfilled && InSpan(values[t], Coord(r, c)) :: Pos(t, r, c)
  }

  /** Membership in `SpanGaps`, unfolded. */
  lemma {:induction false} SpanGapsMember(values: Values, p: Pos)
    ensures p in SpanGaps(values) <==>
      EmptyAt(values, p) && InSpan(values[p.table], Coord(p.row, p.column))
  {
    if EmptyAt(values, p) && InSpan(values[p.table], Coord(p.row, p.column)) {
      assert p == Pos(p.table, p.row, p.column);
    }
  }

  /** Membership in a union, one table at a time. */
  lemma {:induction false} GapsBelowUnion(a: set<Pos>, b: set<Pos>, s: set<Pos>, t: nat, p: Pos)
    requires p in a <==> p.table < t && p in s
    requires p.table == t ==> (p in b <==> p in s)
    requires p.table != t ==> p !in b
    ensures p in a + b <==> p.table < t + 1 && p in s
  {
  }

  /** The gaps of table t are the span gaps that lie in table t. */
  lemma {:induction false} TableGapsStep(values: Values, t: nat, p: Pos)
    requires t < |values| && p.table == t
    ensures p in TableGaps(t, values[t]) <==> p in SpanGaps(values)
  {
    TableGapsMember(t, values[t], p);
    SpanGapsMember(values, p);
  }

  /** The gaps the reverse scans have marked once the first `n` tables are done. */
  function GapsBelow(values: Values, n: nat): set<Pos>
    requires n <= |values|
  {
    if n == 0 then {} else GapsBelow(values, n - 1) + TableGaps(n - 1, values[n - 1])
  }

  /** The gaps of the first `n` tables are the span gaps lying in those tables. */
  lemma {:induction false} GapsBelowMember(values: Values, n: nat, p: Pos)
    requires n <= |values|
    ensures p in GapsBelow(values, n) <==> p.table < n && p in SpanGaps(values)
  {
    if n > 0 {
      var earlier, latest := GapsBelow(values, n - 1), TableGaps(n - 1, values[n - 1]);
      assert p in earlier <==> p.table < n - 1 && p in SpanGaps(values) by {
        GapsBelowMember(values, n - 1, p);
      }
      assert p.table != n - 1 ==> p !in latest by {
        TableGapsMember(n - 1, values[n - 1], p);
      }
      assert p.table == n - 1 ==> (p in latest <==> p in SpanGaps(values)) by {
        if p.table == n - 1 {
          TableGapsStep(values, n - 1, p);
        }
      }
      GapsBelowUnion(earlier, latest, SpanGaps(values), n - 1, p);
    }
  }

  /** Once every table is scanned, the marked gaps are all the span gaps. */
  lemma {:induction false} GapsBelowAll(values: Values)
    ensures GapsBelow(values, |values|) == SpanGaps(values)
  {
    forall p
      ensures p in GapsBelow(values, |values|) <==> p in SpanGaps(values)
    {
      GapsBelowMember(values, |values|, p);
      SpanGapsMember(values, p);
    }
  }

  // ---------------------------------------------------------------------
  // Empty tables

  /** Number of all-empty tables among the first `n`. */
  function EmptyCount(values: Values, n: nat): (k: nat)
    requires n <= |values|
    ensures k <= n
  {
    if n == 0 then 0
    else EmptyCount(values, n - 1) + (if First(values[n - 1]).None? then 1 else 0)
  }

  /** The count reaches `n` exactly when each of the first `n` tables is empty. */
  lemma {:induction false} EmptyCountAll(values: Values, n: nat)
    requires n <= |values|
    ensures EmptyCount(values, n) == n <==> forall t :: 0 <= t < n ==> First(values[t]).None?
  {
    if n > 0 {
      EmptyCountAll(values, n - 1);
    }
  }

  /** Every table is empty exactly when every cell is unfilled. */
  lemma {:induction false} AllTablesEmptyIff(values: Values)
    ensures EmptyCount(values, |values|) == |values| <==> AllUnfilled(values)
  {
    EmptyCountAll(values, |values|);
    if EmptyCount(values, |values|) == |values| {
      forall t, r, c | 0 <= t < |values| && 0 <= r < |values[t]| && 0 <= c < |values[t][r]|
        ensures values[t][r][c] == Unfilled
      {
        assert !FilledAt(values[t], Coord(r, c));
      }
    } else {
      var t :| 0 <= t < |values| && First(values[t]).Some?;
      var f := First(values[t]).value;
      assert values[t][f.row][f.column] != Unfilled;
    }
  }

  // ---------------------------------------------------------------------
  // Column bounds of a one-year form

  /** The lower bound kept in $row_bounds[0]: replaced when unset or when `c` is smaller. */
  function WidenLower(bound: Option<nat>, c: nat): (b: Option<nat>)
    ensures b == Some(c) || b == bound
    ensures b.Some? && b.value <= c && (bound.Some? ==> b.value <= bound.value)
  {
    if bound.None? || c < bound.value then Some(c) else bound
  }

  /** The upper bound kept in $row_bounds[1]: replaced when unset or when `c` is larger. */
  function WidenUpper(bound: Option<nat>, c: nat): (b: Option<nat>)
    ensures b == Some(c) || b == bound
    ensures b.Some? && b.value >= c && (bound.Some? ==> b.value >= bound.value)
  {
    if bound.None? || c > bound.value then Some(c) else bound
  }

  /** The lower bound after the first `n` entries of `cols`, widened in order. */
  function Lowest(cols: seq<Option<nat>>, n: nat): Option<nat>
    requires n <= |cols|
  {
    if n == 0 then None
    else match cols[n - 1]
      case None => Lowest(cols, n - 1)
      case Some(c) => WidenLower(Lowest(cols, n - 1), c)
  }

  /** The upper bound after the first `n` entries of `cols`, widened in order. */
  function Highest(cols: seq<Option<nat>>, n: nat): Option<nat>
    requires n <= |cols|
  {
    if n == 0 then None
    else match cols[n - 1]
      case None => Highest(cols, n - 1)
      case Some(c) => WidenUpper(Highest(cols, n - 1), c)
  }

  /** The lower bound is set exactly when some entry is, and is then the
      smallest entry: attained by one of them and no larger than any. */
  lemma {:induction false} LowestIsMinimum(cols: seq<Option<nat>>, n: nat)
    requires n <= |cols|
    ensures Lowest(cols, n).Some? <==> exists t :: 0 <= t < n && cols[t].Some?
    ensures Lowest(cols, n).Some? ==> exists t :: 0 <= t < n && cols[t] == Lowest(cols, n)
    ensures Lowest(cols, n).Some? ==> forall t :: 0 <= t < n && cols[t].Some? ==> Lowest(cols, n).value <= cols[t].value
  {
    if n > 0 {
      LowestIsMinimum(cols, n - 1);
    }
  }

  /** The upper bound is set exactly when some entry is, and is then the
      largest entry: attained by one of them and no smaller than any. */
  lemma {:induction false} HighestIsMaximum(cols: seq<Option<nat>>, n: nat)
    requires n <= |cols|
    ensures Highest(cols, n).Some? <==> exists t :: 0 <= t < n && cols[t].Some?
    ensures Highest(cols, n).Some? ==> exists t :: 0 <= t < n && cols[t] == Highest(cols, n)
    ensures Highest(cols, n).Some? ==> forall t :: 0 <= t < n && cols[t].Some? ==> cols[t].value <= Highest(cols, n).value
  {
    if n > 0 {
      HighestIsMaximum(cols, n - 1);
    }
  }

  /** Column of a table's first filled cell, as recorded by the forward scan. */
  function FirstColumn(table: Table): Option<nat>
  {
    match First(table)
    case None => None
    case Some(f) => Some(f.column)
  }

  /** Column of a table's last filled cell, as recorded by the reverse scan. */
  function LastColumn(table: Table): Option<nat>
  {
    match Last(table)
    case None => None
    case Some(l) => Some(l.column)
  }

  function FirstColumns(values: Values): (cols: seq<Option<nat>>)
    ensures |cols| == |values|
    ensures forall t :: 0 <= t < |values| ==> cols[t] == FirstColumn(values[t])
  {
    seq(|values|, t requires 0 <= t < |values| => FirstColumn(values[t]))
  }

  function LastColumns(values: Values): (cols: seq<Option<nat>>)
    ensures |cols| == |values|
    ensures forall t :: 0 <= t < |values| ==> cols[t] == LastColumn(values[t])
  {
    seq(|values|, t requires 0 <= t < |values| => LastColumn(values[t]))
  }

  /** $row_bounds[0] after all tables: the smallest first-filled column. */
  function LowerBound(values: Values): (lo: Option<nat>)
    ensures lo.Some? ==> exists t :: 0 <= t < |values| && FirstColumn(values[t]) == lo
    ensures forall t :: 0 <= t < |values| && FirstColumn(values[t]).Some? ==>
      lo.Some? && lo.value <= FirstColumn(values[t]).value
  {
    LowestIsMinimum(FirstColumns(values), |values|);
    Lowest(FirstColumns(values), |values|)
  }

  /** $row_bounds[1] after all tables of a one-year form: the largest last-filled column. */
  function UpperBound(values: Values): (hi: Option<nat>)
    ensures hi.Some? ==> exists t :: 0 <= t < |values| && LastColumn(values[t]) == hi
    ensures forall t :: 0 <= t < |values| && LastColumn(values[t]).Some? ==>
      hi.Some? && LastColumn(values[t]).value <= hi.value
  {
    HighestIsMaximum(LastColumns(values), |values|);
    Highest(LastColumns(values), |values|)
  }

  /** One more table widens the lower bound by its first filled column. */
  lemma {:induction false} LowestStep(values: Values, t: nat)
    requires t < |values|
    ensures Lowest(FirstColumns(values), t + 1) ==
      (if First(values[t]).Some? then WidenLower(Lowest(FirstColumns(values), t), First(values[t]).value.column)
       else Lowest(FirstColumns(values), t))
  {
    assert FirstColumns(values)[t] == FirstColumn(values[t]);
  }

  /** One more table widens the upper bound by its last filled column. */
  lemma {:induction false} HighestStep(values: Values, t: nat)
    requires t < |values| && First(values[t]).Some?
    ensures Last(values[t]).Some?
    ensures Highest(LastColumns(values), t + 1) ==
      WidenUpper(Highest(LastColumns(values), t), Last(values[t]).value.column)
  {
    FirstLastTogether(values[t]);
    assert LastColumns(values)[t] == LastColumn(values[t]);
  }

  /** An empty table has no gaps, and an upper bound is set only by a filled table. */
  lemma {:induction false} EmptyTableStep(values: Values, t: nat)
    requires t < |values| && First(values[t]).None?
    ensures Highest(LastColumns(values), t + 1) == Highest(LastColumns(values), t)
    ensures TableGaps(t, values[t]) == {}
  {
    FirstLastTogether(values[t]);
    assert LastColumns(values)[t] == LastColumn(values[t]);
    forall p | p in TableGaps(t, values[t])
      ensures false
    {
      TableGapsMember(t, values[t], p);
    }
  }

  /** The empty cells, in every row of every table, whose column is in [lo, hi]. */
  function RangeFlags(values: Values, lo: nat, hi: nat): set<Pos>
  {
    set t, r, c | 0 <= t < |values| && 0 <= r < |values[t]| && lo <= c <= hi
                  && c < |values[t][r]| && values[t][r][c] == Unfilled :: Pos(t, r, c)
  }

  /** Membership in `RangeFlags`, unfolded. */
  lemma {:induction false} RangeFlagsMember(values: Values, lo: nat, hi: nat, p: Pos)
    ensures p in RangeFlags(values, lo, hi) <==> EmptyAt(values, p) && lo <= p.column <= hi
  {
    if EmptyAt(values, p) && lo <= p.column <= hi {
      assert p == Pos(p.table, p.row, p.column);
    }
  }

  /** The consistency pass of a one-year form. Both bounds are set as soon as
      one table is non-empty; with no bound the source's loop marks nothing. */
  function SingleRowFlags(values: Values): (flags: set<Pos>)
    ensures forall p :: p in flags ==> EmptyAt(values, p)
    ensures LowerBound(values).None? ==> flags == {}
  {
    match (LowerBound(values), UpperBound(values))
    case (Some(lo), Some(hi)) => RangeFlags(values, lo, hi)
    case _ => {}
  }

  // ---------------------------------------------------------------------
  // The errors of one validation

  /** The errors validateForm sets. Nothing is checked unless the submit
      button triggered the request. With more than one row, the reverse scans
      mark the gaps of every table, and the structural error is added when the
      empty tables number tableCount. With one row, the structural error is
      raised in that case and nothing else; otherwise the consistency pass
      marks the cells. */
  function ValidationErrors(trigger: string, values: Values, tableCount: int, rowCount: int): (e: Errors)
    ensures e.structural <==> trigger == "submit" && EmptyCount(values, |values|) == tableCount
    ensures rowCount == 1 && e.structural ==> e.cells == {}
  {
    if trigger != "submit" then NoErrors
    else
      var structural := EmptyCount(values, |values|) == tableCount;
      if rowCount != 1 then Errors(structural, SpanGaps(values))
      else if structural then Errors(true, {})
      else Errors(false, SingleRowFlags(values))
  }

  // ---------------------------------------------------------------------
  // Properties

  /** Only the submit button triggers validation. */
  lemma {:induction false} NoErrorsUnlessSubmit(trigger: string, values: Values, tableCount: int, rowCount: int)
    requires trigger != "submit"
    ensures ValidationErrors(trigger, values, tableCount, rowCount) == NoErrors
  {
  }

  /** On a well-shaped form the structural error is raised exactly when every
      cell is empty, and then it is the only error. */
  lemma {:induction false} StructuralIffAllEmpty(values: Values, tableCount: int, rowCount: int)
    requires Shaped(values, tableCount, rowCount)
    ensures ValidationErrors("submit", values, tableCount, rowCount).structural <==> AllUnfilled(values)
    ensures AllUnfilled(values) ==> ValidationErrors("submit", values, tableCount, rowCount) == Errors(true, {})
  {
    AllTablesEmptyIff(values);
    if AllUnfilled(values) {
      forall p | p in SpanGaps(values) ensures false {
        SpanGapsMember(values, p);
      }
    }
  }

  /** A marked cell is always an empty cell of the form. */
  lemma {:induction false} FilledNeverFlagged(trigger: string, values: Values, tableCount: int, rowCount: int, p: Pos)
    requires p in ValidationErrors(trigger, values, tableCount, rowCount).cells
    ensures EmptyAt(values, p)
  {
    if rowCount != 1 {
      SpanGapsMember(values, p);
    } else {
      var lo, hi := LowerBound(values), UpperBound(values);
      if lo.Some? && hi.Some? {
        RangeFlagsMember(values, lo.value, hi.value, p);
      }
    }
  }

  /** With more than one row, the marked cells are exactly the empty cells that
      have a filled cell before and a filled cell after them in the same table,
      in row-major order across row boundaries. */
  lemma {:induction false} MultiRowFlagsAreInteriorGaps(values: Values, tableCount: int, rowCount: int, p: Pos)
    requires rowCount != 1
    ensures p in ValidationErrors("submit", values, tableCount, rowCount).cells <==>
      EmptyAt(values, p)
      && (exists q :: FilledAt(values[p.table], q) && Before(q, Coord(p.row, p.column)))
      && (exists q :: FilledAt(values[p.table], q) && Before(Coord(p.row, p.column), q))
  {
    SpanGapsMember(values, p);
    if EmptyAt(values, p)
       && (exists q :: FilledAt(values[p.table], q) && Before(q, Coord(p.row, p.column)))
       && (exists q :: FilledAt(values[p.table], q) && Before(Coord(p.row, p.column), q))
    {
      var table, at := values[p.table], Coord(p.row, p.column);
      var q1 :| FilledAt(table, q1) && Before(q1, at);
      var q2 :| FilledAt(table, q2) && Before(at, q2);
      assert !Before(q1, First(table).value);
      assert !Before(Last(table).value, q2);
      assert InSpan(table, at);
    }
  }

  /** With more than one row, a table whose first and last filled cells
      coincide contributes no error. */
  lemma {:induction false} SingleFilledCellNoErrors(values: Values, tableCount: int, rowCount: int, t: nat)
    requires rowCount != 1 && t < |values|
    requires First(values[t]).Some? && First(values[t]) == Last(values[t])
    ensures forall p :: p in ValidationErrors("submit", values, tableCount, rowCount).cells ==> p.table != t
  {
    forall p | p in ValidationErrors("submit", values, tableCount, rowCount).cells
      ensures p.table != t
    {
      SpanGapsMember(values, p);
    }
  }

  // One-year tables: the first and last filled cells are in row 0.

  lemma {:induction false} FirstColumnFilled(table: Table)
    requires |table| <= 1 && FirstColumn(table).Some?
    ensures FilledAt(table, Coord(0, FirstColumn(table).value))
  {
  }

  lemma {:induction false} FirstColumnAtMost(table: Table, c: nat)
    requires |table| <= 1 && FilledAt(table, Coord(0, c))
    ensures FirstColumn(table).Some? && FirstColumn(table).value <= c
  {
    assert !Before(Coord(0, c), First(table).value);
  }

  lemma {:induction false} LastColumnFilled(table: Table)
    requires |table| <= 1 && LastColumn(table).Some?
    ensures FilledAt(table, Coord(0, LastColumn(table).value))
  {
  }

  lemma {:induction false} LastColumnAtLeast(table: Table, c: nat)
    requires |table| <= 1 && FilledAt(table, Coord(0, c))
    ensures LastColumn(table).Some? && c <= LastColumn(table).value
  {
    assert !Before(Last(table).value, Coord(0, c));
  }

  /** Some table is non-empty exactly when the lower bound is set. */
  lemma {:induction false} LowerBoundSetIffFilled(values: Values)
    ensures LowerBound(values).Some? <==> exists t :: 0 <= t < |values| && FirstColumn(values[t]).Some?
  {
    LowestIsMinimum(FirstColumns(values), |values|);
  }

  /** In a one-year form, the lower bound is at most `column` exactly when
      some table has a filled cell at or before `column`. */
  lemma {:induction false} LowerBoundIff(values: Values, column: nat)
    requires forall t :: 0 <= t < |values| ==> |values[t]| <= 1
    requires LowerBound(values).Some?
    ensures LowerBound(values).value <= column <==>
      exists t, c :: 0 <= t < |values| && 0 <= c <= column && FilledAt(values[t], Coord(0, c))
  {
    var firsts := FirstColumns(values);
    LowestIsMinimum(firsts, |values|);
    var lo := LowerBound(values).value;
    if lo <= column {
      var t :| 0 <= t < |values| && firsts[t] == Some(lo);
      FirstColumnFilled(values[t]);
    }
    if exists t, c :: 0 <= t < |values| && 0 <= c <= column && FilledAt(values[t], Coord(0, c)) {
      var t, c :| 0 <= t < |values| && 0 <= c <= column && FilledAt(values[t], Coord(0, c));
      FirstColumnAtMost(values[t], c);
    }
  }

  /** In a one-year form, the upper bound is at least `column` exactly when
      some table has a filled cell at or after `column`. */
  lemma {:induction false} UpperBoundIff(values: Values, column: nat)
    requires forall t :: 0 <= t < |values| ==> |values[t]| <= 1
    requires UpperBound(values).Some?
    ensures column <= UpperBound(values).value <==>
      exists t, c :: 0 <= t < |values| && 0 <= column <= c && FilledAt(values[t], Coord(0, c))
  {
    var lasts := LastColumns(values);
    HighestIsMaximum(lasts, |values|);
    var hi := UpperBound(values).value;
    if column <= hi {
      var t :| 0 <= t < |values| && lasts[t] == Some(hi);
      LastColumnFilled(values[t]);
    }
    if exists t, c :: 0 <= t < |values| && 0 <= column <= c && FilledAt(values[t], Coord(0, c)) {
      var t, c :| 0 <= t < |values| && 0 <= column <= c && FilledAt(values[t], Coord(0, c));
      LastColumnAtLeast(values[t], c);
    }
  }

  /** In a one-year form the lower bound is at most the upper bound. */
  lemma {:induction false} BoundsOrdered(values: Values)
    requires forall t :: 0 <= t < |values| ==> |values[t]| <= 1
    requires LowerBound(values).Some?
    ensures UpperBound(values).Some?
    ensures LowerBound(values).value <= UpperBound(values).value
  {
    var lo := LowerBound(values).value;
    LowestIsMinimum(FirstColumns(values), |values|);
    var t :| 0 <= t < |values| && FirstColumns(values)[t] == Some(lo);
    FirstColumnFilled(values[t]);
    LastColumnAtLeast(values[t], lo);
    HighestIsMaximum(LastColumns(values), |values|);
    assert LastColumns(values)[t].Some?;
    UpperBoundIff(values, lo);
  }

  /** Some table of a form is non-empty unless every cell is unfilled. */
  lemma {:induction false} SomeTableFilled(values: Values, tableCount: int)
    requires Shaped(values, tableCount, 1) && !AllUnfilled(values)
    ensures EmptyCount(values, |values|) != tableCount
    ensures LowerBound(values).Some?
  {
    AllTablesEmptyIff(values);
    var t :| 0 <= t < |values| && First(values[t]).Some?;
    assert FirstColumn(values[t]).Some?;
    LowerBoundSetIffFilled(values);
  }

  /** A one-year form with some filled cell gets exactly the consistency pass. */
  lemma {:induction false} SingleRowErrors(values: Values, tableCount: int)
    requires Shaped(values, tableCount, 1)
    requires !AllUnfilled(values)
    ensures LowerBound(values).Some? && UpperBound(values).Some?
    ensures LowerBound(values).value <= UpperBound(values).value
    ensures ValidationErrors("submit", values, tableCount, 1)
         == Errors(false, RangeFlags(values, LowerBound(values).value, UpperBound(values).value))
  {
    SomeTableFilled(values, tableCount);
    BoundsOrdered(values);
  }

  /** With one row per table and some table filled, the marked cells are
      exactly the empty cells, in every table (empty tables included), whose
      column has a filled cell at or before it and a filled cell at or after
      it, in any tables. */
  lemma {:induction false} SingleRowFlagsExact(values: Values, tableCount: int, p: Pos)
    requires Shaped(values, tableCount, 1)
    requires !AllUnfilled(values)
    ensures p in ValidationErrors("submit", values, tableCount, 1).cells <==>
      EmptyAt(values, p)
      && (exists t, c :: 0 <= t < |values| && 0 <= c <= p.column && FilledAt(values[t], Coord(0, c)))
      && (exists t, c :: 0 <= t < |values| && 0 <= p.column <= c && FilledAt(values[t], Coord(0, c)))
  {
    SingleRowErrors(values, tableCount);
    RangeFlagsMember(values, LowerBound(values).value, UpperBound(values).value, p);
    LowerBoundIff(values, p.column);
    UpperBoundIff(values, p.column);
  }
}
