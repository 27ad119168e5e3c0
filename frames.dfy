/** The tabular data the dashboard manipulates: a pandas DataFrame seen as an ordered list of
    column labels and a list of rows, each row a map from column label to cell. */
module Frames {
  import opened Seqs

  /** One cell: NaN/None, a string as delivered by the pricing service, or a number after
      coercion. */
  datatype Cell = Missing | Text(s: string) | Number(x: real)

  type Row = map<string, Cell>

  datatype Frame = Frame(columns: seq<string>, rows: seq<Row>)

  function ColumnSet(cols: seq<string>): set<string> {
    set c | c in cols
  }

  /** What every DataFrame satisfies: distinct labels, and every row has exactly the frame's
      columns (an absent value is a `Missing` cell, not an absent key). */
  predicate WellFormed(f: Frame) {
    Distinct(f.columns) &&
    forall i :: 0 <= i < |f.rows| ==> f.rows[i].Keys == ColumnSet(f.columns)
  }
}
