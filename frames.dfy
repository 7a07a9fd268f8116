/**
  The tabular data the cleaning step works on: an ordered sequence of rows,
  each mapping a column name to a cell. A cell is a number, a text value or
  missing (what the CSV reader turns into NaN).
 */
module Frames {

  datatype Cell = Missing | Num(value: real) | Text(text: string)

  type Row = map<string, Cell>

  /** A data frame: its header and its rows, in file order. */
  datatype Frame = Frame(columns: seq<string>, rows: seq<Row>)

  const PriceColumn: string := "price"

  /** Every row has exactly the frame's columns. */
  ghost predicate WellFormed(f: Frame)
  {
    forall i :: 0 <= i < |f.rows| ==> f.rows[i].Keys == set c | c in f.columns
  }

  /** The row's price cell; a row without one reads as missing. */
  function Price(r: Row): (p: Cell)
    ensures !p.Missing? ==> PriceColumn in r && r[PriceColumn] == p
    ensures Complete(r, [PriceColumn]) <==> !p.Missing?
  {
    if PriceColumn in r then r[PriceColumn] else Missing
  }

  /** Closed-interval test of a cell, both bounds included; a missing value is never between. */
  predicate Between(c: Cell, lo: real, hi: real): (b: bool)
    ensures b ==> c.Num? && lo <= hi
    ensures c == Num(lo) || c == Num(hi) ==> (b <==> lo <= hi)
  {
    c.Num? && lo <= c.value <= hi
  }

  /**
    No column of the header holds a missing value in the row. A column the
    row has no cell for reads as missing, as it does in a data frame.
   */
  predicate Complete(r: Row, columns: seq<string>)
  {
    forall c :: c in columns ==> c in r && !r[c].Missing?
  }
}
