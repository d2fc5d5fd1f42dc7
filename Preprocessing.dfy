/**
 * The cleaner and splitter of src/preprocessing.py. Cleaning first overwrites the
 * total-charges column of the caller's DataFrame in place with its numeric coercion, then
 * returns a new table holding only the rows without a missing cell; the caller's
 * DataFrame keeps all its rows. Splitting separates the label column from the features.
 */
module Preprocessing {
  import opened Wrappers
  import opened Frame

  // ---------------------------------------------------------------------------
  // Numeric coercion (pd.to_numeric with errors='coerce')

  /**
   * Numbers stay as they are, a string becomes the number `parse` reads from it or
   * missing when it reads none, and missing stays missing. `parse` stands for the
   * pandas string-to-number conversion.
   */
  function ToNumeric(v: Value, parse: string -> Option<real>): (r: Value)
    ensures r.Num? || r.Missing?
    ensures v.Num? ==> r == v
    ensures v.Missing? ==> r == Missing
    ensures v.Str? ==> (r.Num? <==> parse(v.s).Some?)
    ensures v.Str? && r.Num? ==> r.x == parse(v.s).value
  {
    match v
    case Num(_) => v
    case Missing => Missing
    case Str(s) =>
      match parse(s)
      case Some(x) => Num(x)
      case None => Missing
  }

  /** The row with its total-charges cell coerced and every other cell untouched. */
  function CoerceRow(row: Row, parse: string -> Option<real>): (r: Row)
    requires TotalCharges in row
    ensures r.Keys == row.Keys
    ensures r[TotalCharges] == ToNumeric(row[TotalCharges], parse)
    ensures forall c :: c in row && c != TotalCharges ==> r[c] == row[c]
  {
    row[TotalCharges := ToNumeric(row[TotalCharges], parse)]
  }

  /** The whole column coerced, row by row. */
  function CoerceColumn(rows: seq<Row>, parse: string -> Option<real>): (r: seq<Row>)
    requires forall i :: 0 <= i < |rows| ==> TotalCharges in rows[i]
    ensures |r| == |rows|
    ensures forall i :: 0 <= i < |rows| ==> r[i] == CoerceRow(rows[i], parse)
  {
    seq(|rows|, i requires 0 <= i < |rows| => CoerceRow(rows[i], parse))
  }

  /**
   * A row survives cleaning exactly when its total charges coerce to a number and no
   * other cell of it is missing.
   */
  lemma CoercedRowKeptIff(row: Row, parse: string -> Option<real>)
    requires TotalCharges in row
    ensures !HasMissing(CoerceRow(row, parse)) <==>
      ToNumeric(row[TotalCharges], parse).Num? &&
      forall c :: c in row && c != TotalCharges ==> row[c] != Missing
  {
  }

  // ---------------------------------------------------------------------------
  // Dropping incomplete rows (DataFrame.dropna)

  /** The rows without a missing cell, in their original order. */
  function DropNa(rows: seq<Row>): (kept: seq<Row>)
    ensures |kept| <= |rows|
    ensures forall i :: 0 <= i < |kept| ==> !HasMissing(kept[i]) && kept[i] in rows
    ensures forall r :: multiset(kept)[r] == if HasMissing(r) then 0 else multiset(rows)[r]
  {
    if rows == [] then []
    else
      assert rows == [rows[0]] + rows[1..];
      if HasMissing(rows[0]) then DropNa(rows[1..])
      else [rows[0]] + DropNa(rows[1..])
  }

  /** `sub` is obtained from `s` by deleting elements, without reordering or repeating any. */
  predicate IsSubsequence<T(==)>(sub: seq<T>, s: seq<T>)
    decreases |s|
  {
    if sub == [] then true
    else if s == [] then false
    else (sub[0] == s[0] && IsSubsequence(sub[1..], s[1..])) || IsSubsequence(sub, s[1..])
  }

  lemma {:induction false} DropNaIsSubsequence(rows: seq<Row>)
    ensures IsSubsequence(DropNa(rows), rows)
  {
    if rows != [] {
      DropNaIsSubsequence(rows[1..]);
      var kept := DropNa(rows);
      if !HasMissing(rows[0]) {
        assert kept[0] == rows[0] && kept[1..] == DropNa(rows[1..]);
      }
    }
  }

  /** A row is kept exactly when it has no missing cell. */
  lemma DropNaKeepsIff(rows: seq<Row>, i: int)
    requires 0 <= i < |rows|
    ensures rows[i] in DropNa(rows) <==> !HasMissing(rows[i])
  {
  }

  /** Dropping incomplete rows from rows that have none returns them unchanged. */
  lemma {:induction false} DropNaOfCompleteRows(rows: seq<Row>)
    requires forall i :: 0 <= i < |rows| ==> !HasMissing(rows[i])
    ensures DropNa(rows) == rows
  {
    if rows != [] {
      DropNaOfCompleteRows(rows[1..]);
    }
  }

  // ---------------------------------------------------------------------------
  // clean_data

  /**
   * The table clean_data returns: a KeyError when there is no total-charges column,
   * otherwise the coerced rows that have no missing cell.
   */
  function Clean(t: Table, parse: string -> Option<real>): (r: Result<Table, FrameError>)
    requires t.WellFormed()
    ensures r.Failure? <==> TotalCharges !in t.columns
    ensures r.Failure? ==> r.error == KeyError(TotalCharges)
    ensures r.Success? ==> r.value.WellFormed() && r.value.columns == t.columns
    ensures r.Success? ==> |r.value.rows| <= |t.rows|
    ensures r.Success? ==> forall i :: 0 <= i < |r.value.rows| ==>
      !HasMissing(r.value.rows[i]) && r.value.rows[i][TotalCharges].Num?
  {
    if TotalCharges !in t.columns then Failure(KeyError(TotalCharges))
    else
      var coerced := CoerceColumn(t.rows, parse);
      var kept := DropNa(coerced);
      assert forall i :: 0 <= i < |kept| ==> kept[i] in coerced;
      Success(Table(t.columns, kept))
  }

  /** The cleaned rows come from the coerced input rows, in order, none invented or repeated. */
  lemma CleanIsOrderedSelection(t: Table, parse: string -> Option<real>)
    requires t.WellFormed() && TotalCharges in t.columns
    ensures IsSubsequence(Clean(t, parse).value.rows, CoerceColumn(t.rows, parse))
    ensures forall r :: multiset(Clean(t, parse).value.rows)[r] ==
                        (if HasMissing(r) then 0 else multiset(CoerceColumn(t.rows, parse))[r])
  {
    DropNaIsSubsequence(CoerceColumn(t.rows, parse));
  }

  /** Coercing a row whose total charges are already a number leaves it as it is. */
  lemma CoerceRowOfNumber(row: Row, parse: string -> Option<real>)
    requires TotalCharges in row && row[TotalCharges].Num?
    ensures CoerceRow(row, parse) == row
  {
    assert CoerceRow(row, parse).Keys == row.Keys;
  }

  /** Cleaning a cleaned table gives it back unchanged. */
  lemma CleanIdempotent(t: Table, parse: string -> Option<real>)
    requires t.WellFormed() && TotalCharges in t.columns
    ensures Clean(Clean(t, parse).value, parse) == Clean(t, parse)
  {
    var once := Clean(t, parse).value;
    var coerced := CoerceColumn(once.rows, parse);
    forall i | 0 <= i < |once.rows|
      ensures coerced[i] == once.rows[i]
    {
      CoerceRowOfNumber(once.rows[i], parse);
    }
    assert coerced == once.rows;
    DropNaOfCompleteRows(once.rows);
  }

  /**
   * clean_data. The caller's DataFrame has its total-charges column overwritten in
   * place (every row is kept there); the returned table is the cleaned copy.
   */
  method CleanData(df: DataFrame, parse: string -> Option<real>) returns (r: Result<Table, FrameError>)
    requires df.Valid()
    modifies df.rows
    ensures df.Valid()
    ensures r == Clean(old(df.Snapshot()), parse)
    ensures TotalCharges in df.columns ==> df.rows[..] == CoerceColumn(old(df.rows[..]), parse)
    ensures TotalCharges !in df.columns ==> df.rows[..] == old(df.rows[..])
  {
    if TotalCharges !in df.columns {
      return Failure(KeyError(TotalCharges));
    }
    var i := 0;
    while i < df.rows.Length
      invariant 0 <= i <= df.rows.Length
      invariant forall k :: 0 <= k < i ==> df.rows[k] == CoerceRow(old(df.rows[k]), parse)
      invariant forall k :: i <= k < df.rows.Length ==> df.rows[k] == old(df.rows[k])
    {
      df.rows[i] := CoerceRow(df.rows[i], parse);
      i := i + 1;
    }
    assert df.rows[..] == CoerceColumn(old(df.rows[..]), parse);
    r := Success(Table(df.columns, DropNa(df.rows[..])));
  }

  // ---------------------------------------------------------------------------
  // split_data (the separation of the label column; the shuffled split is not modelled)

  /** The feature table without the target column, and the target column itself, over the same rows. */
  function SplitData(t: Table, target: string): (r: Result<(Table, seq<Value>), FrameError>)
    requires t.WellFormed()
    ensures r.Failure? <==> target !in t.columns
    ensures r.Failure? ==> r.error == KeyError(target)
    ensures r.Success? ==> r.value.0.WellFormed() && r.value.0.columns == t.columns - {target}
    ensures r.Success? ==> |r.value.0.rows| == |r.value.1| == |t.rows|
    ensures r.Success? ==> forall i :: 0 <= i < |t.rows| ==> r.value.1[i] == t.rows[i][target]
  {
    if target !in t.columns then Failure(KeyError(target))
    else
      var features := seq(|t.rows|, i requires 0 <= i < |t.rows| => t.rows[i] - {target});
      var labels := seq(|t.rows|, i requires 0 <= i < |t.rows| => t.rows[i][target]);
      Success((Table(t.columns - {target}, features), labels))
  }

  /** Putting each label back into its feature row rebuilds the original row: nothing is lost or mixed up. */
  lemma SplitRejoins(t: Table, target: string, i: int)
    requires t.WellFormed() && target in t.columns && 0 <= i < |t.rows|
    ensures var (x, y) := SplitData(t, target).value;
      target !in x.rows[i] && x.rows[i][target := y[i]] == t.rows[i]
  {
  }
}
