/**
 * The form object and its handlers: the two counters that addRow and
 * addTable bump, and the loops of buildForm, validateForm and submitForm,
 * each proved against the specification functions of Layout, Validation
 * and Aggregation.
 */
module Attestation {
  import opened Grid
  import opened Layout
  import opened Validation
  import opened Aggregation

  // ---------------------------------------------------------------------
  // buildForm: the row template

  /** A laid-out row whose quarter and year-to-date texts are still empty. */
  predicate Blank(slots: seq<Slot>)
  {
    LaidOut(slots)
    && (forall i :: 0 <= i < PartCount ==> slots[PartSlot(i)] == Part(i, None))
    && slots[YtdSlot] == Ytd(None)
  }

  /** The row template: the year label, then for each quarter three number
      inputs keyed by the next free integer and the quarter's empty text,
      then the empty year-to-date text. */
  method BuildRow(year: int) returns (row: seq<Slot>)
    ensures Blank(row) && row[0] == Year(year)
  {
    row := [Year(year)];
    var nextKey := 0;
    for i := 0 to PartCount
      invariant |row| == 1 + 4 * i && nextKey == 3 * i && row[0] == Year(year)
      invariant forall i', j :: 0 <= i' < i && 0 <= j < PartSize ==> row[MonthSlot(i', j)] == Month(3 * i' + j)
      invariant forall i' :: 0 <= i' < i ==> row[PartSlot(i')] == Part(i', None)
    {
      for j := 0 to PartSize
        invariant |row| == 1 + 4 * i + j && nextKey == 3 * i + j && row[0] == Year(year)
        invariant forall i', j' :: 0 <= i' < i && 0 <= j' < PartSize ==> row[MonthSlot(i', j')] == Month(3 * i' + j')
        invariant forall j' :: 0 <= j' < j ==> row[MonthSlot(i, j')] == Month(3 * i + j')
        invariant forall i' :: 0 <= i' < i ==> row[PartSlot(i')] == Part(i', None)
      {
        row := row + [Month(nextKey)];
        nextKey := nextKey + 1;
      }
      row := row + [Part(i, None)];
    }
    row := row + [Ytd(None)];
  }

  // ---------------------------------------------------------------------
  // validateForm: the scans of one table

  /** Cursor test of the reverse scan: cell `q` comes at or after (r, c) in
      row-major order, so a scan going backwards has already passed it. */
  predicate Visited(q: Coord, r: nat, c: nat)
  {
    q.row > r || (q.row == r && q.column >= c)
  }

  /** An empty cell the reverse scan has passed after finding the last filled cell. */
  predicate SeenGap(table: Table, q: Coord, r: nat, c: nat, found: bool)
  {
    found && Visited(q, r, c)
    && q.row < |table| && q.column < |table[q.row]| && table[q.row][q.column] == Unfilled
    && Last(table).Some? && Before(q, Last(table).value)
  }

  /** The forward scan: the first filled cell in row-major order, widening the
      lower column bound with its column when one is found. */
  method ForwardScan(table: Table, lower: Option<nat>) returns (first: Option<Coord>, lower': Option<nat>)
    ensures first == First(table)
    ensures lower' == (if first.Some? then WidenLower(lower, first.value.column) else lower)
  {
    first, lower' := None, lower;
    for r := 0 to |table|
      invariant first.None? && lower' == lower
      invariant forall q: Coord :: q.row < r ==> !FilledAt(table, q)
    {
      for c := 0 to |table[r]|
        invariant forall k :: 0 <= k < c ==> table[r][k] == Unfilled
      {
        if table[r][c] != Unfilled {
          first := Some(Coord(r, c));
          lower' := WidenLower(lower, c);
          FirstIs(table, Coord(r, c));
          break break;
        }
      }
    }
  }

  /** The reverse scan of a non-empty table, from its last cell back to its
      first filled cell. In a one-year form it stops at the last filled cell
      and widens the upper bound with its column; otherwise it marks every
      empty cell met after the last filled cell. */
  method ReverseScan(index: nat, table: Table, first: Coord, singleRow: bool, upper: Option<nat>)
    returns (upper': Option<nat>, gaps: set<Pos>)
    requires First(table) == Some(first)
    ensures Last(table).Some?
    ensures singleRow ==> upper' == WidenUpper(upper, Last(table).value.column) && gaps == {}
    ensures !singleRow ==> upper' == upper && gaps == TableGaps(index, table)
  {
    upper', gaps := upper, {};
    var found := false;
    var r: nat := |table|;
    while r > 0
      invariant r <= |table| && first.row < r
      invariant upper' == upper && (singleRow ==> !found)
      invariant !found ==> gaps == {} && forall q :: Visited(q, r, 0) ==> !FilledAt(table, q)
      invariant found ==> Last(table).Some? && Visited(Last(table).value, r, 0)
      invariant forall p :: p in gaps <==> p.table == index && SeenGap(table, Coord(p.row, p.column), r, 0, found)
    {
      r := r - 1;
      var c: nat := |table[r]|;
      while c > 0
        invariant c <= |table[r]| && Before(first, Coord(r, c))
        invariant upper' == upper && (singleRow ==> !found)
        invariant !found ==> gaps == {} && forall q :: Visited(q, r, c) ==> !FilledAt(table, q)
        invariant found ==> Last(table).Some? && Visited(Last(table).value, r, c)
        invariant forall p :: p in gaps <==> p.table == index && SeenGap(table, Coord(p.row, p.column), r, c, found)
      {
        c := c - 1;
        if found {
          if table[r][c] == Unfilled {
            gaps := gaps + {Pos(index, r, c)};
          }
        } else if table[r][c] != Unfilled {
          LastIs(table, Coord(r, c));
          if singleRow {
            upper' := WidenUpper(upper, c);
            break break;
          }
          found := true;
        }
        if Coord(r, c) == first {
          forall p
            ensures p in gaps <==> p in TableGaps(index, table)
          {
            TableGapsMember(index, table, p);
          }
          break break;
        }
      }
    }
  }

  /** The loop over the tables: the forward scan of each, then, for a
      non-empty one, its reverse scan. Returns both column bounds, the number
      of empty tables and the cells marked on the way. */
  method ScanTables(values: Values, singleRow: bool)
    returns (lower: Option<nat>, upper: Option<nat>, emptyCount: nat, cells: set<Pos>)
    ensures lower == LowerBound(values)
    ensures upper == (if singleRow then UpperBound(values) else None)
    ensures emptyCount == EmptyCount(values, |values|)
    ensures cells == (if singleRow then {} else SpanGaps(values))
  {
    lower, upper, emptyCount, cells := None, None, 0, {};
    for t := 0 to |values|
      invariant lower == Lowest(FirstColumns(values), t)
      invariant upper == (if singleRow then Highest(LastColumns(values), t) else None)
      invariant emptyCount == EmptyCount(values, t)
      invariant cells == (if singleRow then {} else GapsBelow(values, t))
    {
      lower, upper, emptyCount, cells := ScanTable(values, t, singleRow, lower, upper, emptyCount, cells);
    }
    GapsBelowAll(values);
  }

  /** One pass of the loop over the tables: the forward scan of table t,
      then its reverse scan unless it is empty. It takes the state after the
      first t tables to the state after the first t + 1. */
  method ScanTable(values: Values, t: nat, singleRow: bool,
                   lower: Option<nat>, upper: Option<nat>, emptyCount: nat, cells: set<Pos>)
    returns (lower': Option<nat>, upper': Option<nat>, emptyCount': nat, cells': set<Pos>)
    requires t < |values|
    requires lower == Lowest(FirstColumns(values), t)
    requires upper == (if singleRow then Highest(LastColumns(values), t) else None)
    requires emptyCount == EmptyCount(values, t)
    requires cells == (if singleRow then {} else GapsBelow(values, t))
    ensures lower' == Lowest(FirstColumns(values), t + 1)
    ensures upper' == (if singleRow then Highest(LastColumns(values), t + 1) else None)
    ensures emptyCount' == EmptyCount(values, t + 1)
    ensures cells' == (if singleRow then {} else GapsBelow(values, t + 1))
  {
    LowestStep(values, t);
    var first;
    first, lower' := ForwardScan(values[t], lower);
    if first.None? {
      EmptyTableStep(values, t);
      return lower', upper, emptyCount + 1, cells;
    }
    HighestStep(values, t);
    var gaps;
    upper', gaps := ReverseScan(t, values[t], first.value, singleRow, upper);
    emptyCount', cells' := emptyCount, cells + gaps;
  }

  /** The consistency pass of a one-year form: every empty cell, in every row
      of every table, whose column lies in [lo, hi]. */
  method MarkRange(values: Values, lo: nat, hi: nat) returns (flags: set<Pos>)
    ensures flags == RangeFlags(values, lo, hi)
  {
    flags := {};
    for t := 0 to |values|
      invariant forall p :: p in flags <==> p.table < t && EmptyAt(values, p) && lo <= p.column <= hi
    {
      for r := 0 to |values[t]|
        invariant forall p :: p in flags <==>
          (p.table < t || (p.table == t && p.row < r)) && EmptyAt(values, p) && lo <= p.column <= hi
      {
        var c := lo;
        while c <= hi
          invariant lo <= c
          invariant forall p :: p in flags <==>
            (p.table < t || (p.table == t && (p.row < r || (p.row == r && p.column < c))))
            && EmptyAt(values, p) && lo <= p.column <= hi
          decreases hi + 1 - c
        {
          if c < |values[t][r]| && values[t][r][c] == Unfilled {
            flags := flags + {Pos(t, r, c)};
          }
          c := c + 1;
        }
      }
    }
    forall p
      ensures p in flags <==> p in RangeFlags(values, lo, hi)
    {
      RangeFlagsMember(values, lo, hi, p);
    }
  }

  // ---------------------------------------------------------------------
  // submitForm: the totals of one row

  /** `after` is `before` with every quarter text set to its quarter value and
      the year-to-date text set to the year-to-date value of `row`; the year
      and the month inputs are untouched. */
  predicate Totalled(before: seq<Slot>, row: Row, after: seq<Slot>)
    requires |row| == MonthCount
    ensures Totalled(before, row, after) && LaidOut(before) ==> LaidOut(after)
  {
    |after| == |before| == RowWidth
    && (forall i :: 0 <= i < PartCount ==> after[PartSlot(i)] == Part(i, Some(QuarterValue(row, i))))
    && after[YtdSlot] == Ytd(Some(YtdValue(row)))
    && (forall k :: 0 <= k < |before| && !before[k].Part? && !before[k].Ytd? ==> after[k] == before[k])
  }

  /** The totals of one row: each quarter sums its three cells from a seed
      of 1, divides by 3 and rounds; the year to date sums the rounded
      quarters from a seed of 1, divides by 4 and rounds. */
  method TotalRow(slots: seq<Slot>, row: Row) returns (slots': seq<Slot>)
    requires LaidOut(slots) && |row| == MonthCount
    ensures Totalled(slots, row, slots') && LaidOut(slots')
  {
    slots' := slots;
    var rowSum := 1.0;
    for i := 0 to PartCount
      invariant |slots'| == |slots| && rowSum == 1.0 + QuartersSum(row, i)
      invariant forall i' :: 0 <= i' < i ==> slots'[PartSlot(i')] == Part(i', Some(QuarterValue(row, i')))
      invariant forall k :: 0 <= k < |slots| && !slots[k].Part? ==> slots'[k] == slots[k]
      invariant forall i' :: i <= i' < PartCount ==> slots'[PartSlot(i')] == slots[PartSlot(i')]
    {
      var partSum := 1.0;
      for j := 0 to PartSize
        invariant partSum == 1.0 + PartSum(row, i, j)
      {
        partSum := partSum + CellNumber(row[i * PartSize + j]);
      }
      partSum := Round2(partSum / PartSize as real);
      rowSum := rowSum + partSum;
      slots' := slots'[PartSlot(i) := Part(i, Some(partSum))];
    }
    rowSum := Round2(rowSum / PartCount as real);
    slots' := slots'[YtdSlot := Ytd(Some(rowSum))];
  }

  /** The built tables line up with the submitted values, table for table and
      row for row. */
  predicate Matches(form: seq<TableLayout>, values: Values)
  {
    |form| == |values|
    && (forall t :: 0 <= t < |form| ==> |form[t].rows| == |values[t]|)
    && (forall t, r :: 0 <= t < |form| && 0 <= r < |form[t].rows| ==>
          LaidOut(form[t].rows[r]) && |values[t][r]| == MonthCount)
  }

  // ---------------------------------------------------------------------
  // The form object

  class AttestationForm {
    /** Number of tables in the form. */
    var tableCount: int
    /** Number of year rows in every table. */
    var rowCount: int

    ghost predicate Valid()
      reads this
    {
      tableCount >= 1 && rowCount >= 1
    }

    /** A new form has one table of one year. */
    constructor ()
      ensures Valid() && tableCount == 1 && rowCount == 1
    {
      tableCount, rowCount := 1, 1;
    }

    /** "Add Year": one more row in every table. */
    method AddRow()
      requires Valid()
      modifies this
      ensures Valid() && rowCount == old(rowCount) + 1 && tableCount == old(tableCount)
    {
      rowCount := rowCount + 1;
    }

    /** "Add Table": one more table. */
    method AddTable()
      requires Valid()
      modifies this
      ensures Valid() && tableCount == old(tableCount) + 1 && rowCount == old(rowCount)
    {
      tableCount := tableCount + 1;
    }

    /** The tables of the form: tableCount identical tables captioned 1, 2, …,
        each with rowCount blank rows whose years run up to `currentYear`. */
    method BuildForm(currentYear: int) returns (tables: seq<TableLayout>)
      requires Valid()
      ensures |tables| == tableCount
      ensures forall t :: 0 <= t < |tables| ==>
        tables[t].caption == t + 1 && |tables[t].rows| == rowCount && tables[t].rows == tables[0].rows
      ensures forall t, r :: 0 <= t < |tables| && 0 <= r < rowCount ==>
        Blank(tables[t].rows[r]) && tables[t].rows[r][0] == Year(currentYear - rowCount + 1 + r)
    {
      var row := BuildRow(currentYear - rowCount);
      var rows: seq<seq<Slot>> := [];
      for i := 0 to rowCount
        invariant |rows| == i && Blank(row) && row[0] == Year(currentYear - rowCount + i)
        invariant forall r :: 0 <= r < i ==> Blank(rows[r]) && rows[r][0] == Year(currentYear - rowCount + 1 + r)
      {
        row := row[0 := Year(row[0].year + 1)];
        rows := rows + [row];
      }
      tables := [];
      for i := 1 to tableCount + 1
        invariant |tables| == i - 1
        invariant forall t :: 0 <= t < |tables| ==> tables[t] == TableLayout(t + 1, rows)
      {
        tables := tables + [TableLayout(i, rows)];
      }
    }

    /** The errors of one request, as ValidationErrors defines them. Nothing is
        checked unless the submit button was the trigger. */
    method ValidateForm(trigger: string, values: Values) returns (errors: Errors)
      ensures errors == ValidationErrors(trigger, values, tableCount, rowCount)
      ensures trigger != "submit" ==> errors == NoErrors
    {
      if trigger != "submit" {
        return NoErrors;
      }
      var lower, upper, emptyCount, cells := ScanTables(values, rowCount == 1);
      if emptyCount == tableCount {
        errors := Errors(true, cells);
      } else if rowCount == 1 && lower.Some? && upper.Some? {
        var flags := MarkRange(values, lower.value, upper.value);
        errors := Errors(false, cells + flags);
      } else {
        errors := Errors(false, cells);
      }
    }

    /** Writes the totals of every submitted row into the built form. */
    method SubmitForm(form: seq<TableLayout>, values: Values) returns (form': seq<TableLayout>)
      requires Matches(form, values)
      ensures |form'| == |form|
      ensures forall t :: 0 <= t < |form| ==>
        form'[t].caption == form[t].caption && |form'[t].rows| == |form[t].rows|
      ensures forall t, r :: 0 <= t < |form| && 0 <= r < |form[t].rows| ==>
        Totalled(form[t].rows[r], values[t][r], form'[t].rows[r])
    {
      form' := form;
      for t := 0 to |values|
        invariant |form'| == |form|
        invariant forall t' :: t <= t' < |form| ==> form'[t'] == form[t']
        invariant forall t' :: 0 <= t' < t ==>
          form'[t'].caption == form[t'].caption && |form'[t'].rows| == |form[t'].rows|
        invariant forall t', r :: 0 <= t' < t && 0 <= r < |form[t'].rows| ==>
          Totalled(form[t'].rows[r], values[t'][r], form'[t'].rows[r])
      {
        var rows := form[t].rows;
        for r := 0 to |values[t]|
          invariant |rows| == |form[t].rows|
          invariant forall r' :: r <= r' < |rows| ==> rows[r'] == form[t].rows[r']
          invariant forall r' :: 0 <= r' < r ==> Totalled(form[t].rows[r'], values[t][r'], rows[r'])
        {
          var totalled := TotalRow(rows[r], values[t][r]);
          rows := rows[r := totalled];
        }
        form' := form'[t := form[t].(rows := rows)];
      }
    }
  }
}
