/**
 * The derived values submitForm writes: for each row, four quarter values
 * and a year-to-date value, each rounded to two decimals. Both sums start at
 * 1, as in the source, and empty cells count as 0.
 */
module Aggregation {
  import opened Grid

  // ---------------------------------------------------------------------
  // Rounding

  /** Nearest integer to x, halves away from zero (PHP's default rounding). */
  function RoundHalfAway(x: real): (n: int)
    ensures x >= 0.0 ==> n as real - 0.5 <= x < n as real + 0.5
    ensures x < 0.0 ==> n as real - 0.5 < x <= n as real + 0.5
  {
    if x >= 0.0 then (x + 0.5).Floor else -((-x + 0.5).Floor)
  }

  /** round(x, 2): x to the nearest hundredth, halves away from zero. */
  function Round2(x: real): (y: real)
    ensures (y * 100.0).Floor as real == y * 100.0
    ensures x >= 0.0 ==> y - 0.005 <= x < y + 0.005
    ensures x < 0.0 ==> y - 0.005 < x <= y + 0.005
  {
    RoundHalfAway(x * 100.0) as real / 100.0
  }

  /** A whole number of hundredths is left alone. */
  lemma {:induction false} Round2Exact(k: int)
    ensures Round2(k as real / 100.0) == k as real / 100.0
  {
    assert (k as real / 100.0) * 100.0 == k as real;
    var n := RoundHalfAway(k as real);
    assert (n - k) as real < 1.0 && (k - n) as real < 1.0;
    assert n == k;
  }

  /** Rounding twice is rounding once. */
  lemma {:induction false} Round2Idempotent(x: real)
    ensures Round2(Round2(x)) == Round2(x)
  {
    var k := RoundHalfAway(x * 100.0);
    Round2Exact(k);
  }

  /** Rounding keeps order. */
  lemma {:induction false} Round2Monotone(x: real, y: real)
    requires x <= y
    ensures Round2(x) <= Round2(y)
  {
    var a, b := RoundHalfAway(x * 100.0), RoundHalfAway(y * 100.0);
    assert a <= b;
  }

  // ---------------------------------------------------------------------
  // Quarter and year-to-date values

  /** The number a cell contributes to a sum; the empty input counts as 0. */
  function CellNumber(c: Cell): (n: real)
    ensures c.Value? ==> n == c.amount
    ensures n == 0.0 <==> c == Unfilled || c == Value(0.0)
  {
    match c
    case Unfilled => 0.0
    case Value(x) => x
  }

  /** Sum of the first j cells of quarter i. */
  function PartSum(row: Row, i: nat, j: nat): real
    requires i < PartCount && j <= PartSize && |row| == MonthCount
  {
    if j == 0 then 0.0 else PartSum(row, i, j - 1) + CellNumber(row[PartSize * i + j - 1])
  }

  /** Quarter i: round((1 + its three cells) / 3, 2). */
  function QuarterValue(row: Row, i: nat): (q: real)
    requires i < PartCount && |row| == MonthCount
    ensures (q * 100.0).Floor as real == q * 100.0
    ensures -0.005 <= q - (1.0 + PartSum(row, i, PartSize)) / 3.0 <= 0.005
  {
    Round2((1.0 + PartSum(row, i, PartSize)) / PartSize as real)
  }

  /** Sum of the first n (already rounded) quarter values. */
  function QuartersSum(row: Row, n: nat): real
    requires n <= PartCount && |row| == MonthCount
  {
    if n == 0 then 0.0 else QuartersSum(row, n - 1) + QuarterValue(row, n - 1)
  }

  /** Year to date: round((1 + the four rounded quarter values) / 4, 2). */
  function YtdValue(row: Row): (v: real)
    requires |row| == MonthCount
    ensures (v * 100.0).Floor as real == v * 100.0
    ensures -0.005 <= v - (1.0 + QuartersSum(row, PartCount)) / 4.0 <= 0.005
  {
    Round2((1.0 + QuartersSum(row, PartCount)) / PartCount as real)
  }

  // ---------------------------------------------------------------------
  // Properties

  /** The quarter value in closed form: its three cells plus the seed of 1, over 3. */
  lemma {:induction false} QuarterValueFormula(row: Row, i: nat)
    requires i < PartCount && |row| == MonthCount
    ensures QuarterValue(row, i) ==
      Round2((1.0 + CellNumber(row[3 * i]) + CellNumber(row[3 * i + 1]) + CellNumber(row[3 * i + 2])) / 3.0)
  {
    assert PartSum(row, i, 3) == CellNumber(row[3 * i]) + CellNumber(row[3 * i + 1]) + CellNumber(row[3 * i + 2]) by {
      assert PartSum(row, i, 1) == CellNumber(row[3 * i]);
      assert PartSum(row, i, 2) == PartSum(row, i, 1) + CellNumber(row[3 * i + 1]);
    }
  }

  /** The year-to-date value in closed form, over the rounded quarter values. */
  lemma {:induction false} YtdValueFormula(row: Row)
    requires |row| == MonthCount
    ensures YtdValue(row) ==
      Round2((1.0 + QuarterValue(row, 0) + QuarterValue(row, 1) + QuarterValue(row, 2) + QuarterValue(row, 3)) / 4.0)
  {
    assert QuartersSum(row, 4) == QuarterValue(row, 0) + QuarterValue(row, 1) + QuarterValue(row, 2) + QuarterValue(row, 3) by {
      assert QuartersSum(row, 1) == QuarterValue(row, 0);
      assert QuartersSum(row, 2) == QuartersSum(row, 1) + QuarterValue(row, 1);
      assert QuartersSum(row, 3) == QuartersSum(row, 2) + QuarterValue(row, 2);
    }
  }

  /** Raising a cell of a quarter never lowers that quarter's value. */
  lemma {:induction false} QuarterValueMonotone(row: Row, row': Row, i: nat)
    requires i < PartCount && |row| == |row'| == MonthCount
    requires forall k :: 3 * i <= k < 3 * i + 3 ==> CellNumber(row[k]) <= CellNumber(row'[k])
    ensures QuarterValue(row, i) <= QuarterValue(row', i)
  {
    QuarterValueFormula(row, i);
    QuarterValueFormula(row', i);
    assert CellNumber(row[3 * i]) <= CellNumber(row'[3 * i]);
    assert CellNumber(row[3 * i + 1]) <= CellNumber(row'[3 * i + 1]);
    assert CellNumber(row[3 * i + 2]) <= CellNumber(row'[3 * i + 2]);
    Round2Monotone(
      (1.0 + CellNumber(row[3 * i]) + CellNumber(row[3 * i + 1]) + CellNumber(row[3 * i + 2])) / 3.0,
      (1.0 + CellNumber(row'[3 * i]) + CellNumber(row'[3 * i + 1]) + CellNumber(row'[3 * i + 2])) / 3.0);
  }

  /** A quarter holding 3, 5 and 7 is round(16 / 3, 2) = 5.33. */
  lemma {:induction false} QuarterOfThreeFiveSeven(row: Row, i: nat)
    requires i < PartCount && |row| == MonthCount
    requires row[3 * i] == Value(3.0) && row[3 * i + 1] == Value(5.0) && row[3 * i + 2] == Value(7.0)
    ensures QuarterValue(row, i) == 5.33
  {
    QuarterValueFormula(row, i);
    assert RoundHalfAway(16.0 / 3.0 * 100.0) == 533;
  }

  /** Because of the seed of 1, an entirely empty row is not all zeros: each
      quarter is round(1 / 3, 2) = 0.33 and the year to date round(2.32 / 4, 2) = 0.58. */
  lemma {:induction false} EmptyRowTotals(row: Row)
    requires |row| == MonthCount
    requires forall k :: 0 <= k < |row| ==> row[k] == Unfilled
    ensures forall i :: 0 <= i < PartCount ==> QuarterValue(row, i) == 0.33
    ensures YtdValue(row) == 0.58
  {
    forall i | 0 <= i < PartCount
      ensures QuarterValue(row, i) == 0.33
    {
      QuarterValueFormula(row, i);
      assert RoundHalfAway(1.0 / 3.0 * 100.0) == 33;
    }
    YtdValueFormula(row);
    assert RoundHalfAway(2.32 / 4.0 * 100.0) == 58;
  }
}
