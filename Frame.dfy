/**
 * The tabular data the churn pipeline works on: a pandas DataFrame seen as a set of
 * column names and a sequence of rows, each row a map from column name to cell.
 */
module Frame {

  /** A DataFrame cell: a string, a number, or pandas' missing marker (NaN / None). */
  datatype Value = Str(s: string) | Num(x: real) | Missing

  /** One record: column name to cell. */
  type Row = map<string, Value>

  /** An immutable DataFrame value. Column order is not part of the model. */
  datatype Table = Table(columns: set<string>, rows: seq<Row>) {

    /** Every row carries exactly the table's columns, as in a DataFrame. */
    predicate WellFormed() {
      forall i :: 0 <= i < |rows| ==> rows[i].Keys == columns
    }
  }

  /** The pandas / Python exceptions the modelled code can raise. */
  datatype FrameError =
    | KeyError(column: string)  // a column that the table does not have was selected
    | TypeError                 // arithmetic or binning applied to a string cell

  // Column names of the customer dataset that the core reads.
  const TotalCharges := "TotalCharges"
  const Tenure := "tenure"
  const Partner := "Partner"
  const Dependents := "Dependents"
  const SeniorCitizen := "SeniorCitizen"

  /** True when some cell of the row is missing (what `dropna` looks for). */
  predicate HasMissing(row: Row) {
    exists c :: c in row && row[c] == Missing
  }

  /**
   * A DataFrame object that callers share by reference: its cells can be overwritten
   * in place, column by column, and every holder of the object sees the change.
   */
  class DataFrame {
    const columns: set<string>
    const rows: array<Row>

    ghost predicate Valid()
      reads this, rows
    {
      Snapshot().WellFormed()
    }

    /** The table the object currently holds. */
    function Snapshot(): (t: Table)
      reads this, rows
      ensures t.columns == columns && |t.rows| == rows.Length
    {
      Table(columns, rows[..])
    }

    constructor (t: Table)
      requires t.WellFormed()
      ensures Valid() && Snapshot() == t && fresh(rows)
    {
      columns := t.columns;
      rows := new Row[|t.rows|](i requires 0 <= i < |t.rows| => t.rows[i]);
    }
  }
}
