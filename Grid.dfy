/**
 * The submitted values of the attestation form: tables of yearly rows,
 * each row holding twelve month cells grouped into four quarters of three.
 */
module Grid {

  datatype Option<T> = None | Some(value: T)

  /** Number of quarters ("parts") a row is divided into. */
  const PartCount: nat := 4
  /** Number of month cells in one quarter. */
  const PartSize: nat := 3
  /** Month cells per row: PartCount * PartSize. */
  const MonthCount: nat := 12

  /** A month cell: the empty input, or a number typed into it. */
  datatype Cell = Unfilled | Value(amount: real)

  type Row = seq<Cell>
  type Table = seq<Row>
  /** The submitted tables, in form order. */
  type Values = seq<Table>

  /** A cell of one table: row position and month column. */
  datatype Coord = Coord(row: nat, column: nat)

  /** Error position: table, row and month column. */
  datatype Pos = Pos(table: nat, row: nat, column: nat)

  /** Strict row-major order: earlier year first, then earlier month. */
  predicate Before(a: Coord, b: Coord)
  {
    a.row < b.row || (a.row == b.row && a.column < b.column)
  }

  predicate FilledAt(table: Table, q: Coord)
  {
    q.row < |table| && q.column < |table[q.row]| && table[q.row][q.column].Value?
  }

  predicate EmptyAt(values: Values, p: Pos)
  {
    p.table < |values| && p.row < |values[p.table]| && p.column < |values[p.table][p.row]|
    && values[p.table][p.row][p.column] == Unfilled
  }

  /** Every cell of every table is the empty input. */
  predicate AllUnfilled(values: Values)
  {
    forall t, r, c :: 0 <= t < |values| && 0 <= r < |values[t]| && 0 <= c < |values[t][r]| ==>
      values[t][r][c] == Unfilled
  }

  /** The shape the form is built with: tableCount tables of rowCount rows of twelve cells. */
  predicate Shaped(values: Values, tableCount: int, rowCount: int)
  {
    |values| == tableCount
    && (forall t :: 0 <= t < |values| ==> |values[t]| == rowCount)
    && (forall t, r :: 0 <= t < |values| && 0 <= r < |values[t]| ==> |values[t][r]| == MonthCount)
  }
}
