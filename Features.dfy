/**
 * The feature engineer of src/features.py: a stateless transformer that returns a copy
 * of its input table with three derived columns, FamilySize, AvgChargesPerMonth and
 * TenureGroup. Tables are values, so the caller's table is never modified.
 */
module Features {
  import opened Wrappers
  import opened Frame

  const FamilySizeColumn := "FamilySize"
  const AvgChargesColumn := "AvgChargesPerMonth"
  const TenureGroupColumn := "TenureGroup"

  const DerivedColumns: set<string> := {FamilySizeColumn, AvgChargesColumn, TenureGroupColumn}

  /** The columns the transform reads. */
  const RequiredColumns: set<string> := {Partner, Dependents, TotalCharges, Tenure}

  /** The edges given to pd.cut, and the labels of the five intervals between them. */
  const TenureEdges: seq<real> := [0.0, 12.0, 24.0, 48.0, 60.0, 100.0]
  const TenureLabels: seq<int> := [1, 2, 3, 4, 5]

  // ---------------------------------------------------------------------------
  // FamilySize

  /** 1 for a flag that is exactly the string "Yes" (case-sensitive), 0 for anything else. */
  function YesFlag(v: Value): (n: int)
    ensures n == 1 <==> v == Str("Yes")
    ensures n == 0 <==> v != Str("Yes")
  {
    if v == Str("Yes") then 1 else 0
  }

  /** The number of "Yes" among the partner and dependents flags. */
  function FamilySize(partner: Value, dependents: Value): (n: int)
    ensures 0 <= n <= 2
    ensures n == 2 <==> partner == Str("Yes") && dependents == Str("Yes")
    ensures n == 0 <==> partner != Str("Yes") && dependents != Str("Yes")
  {
    YesFlag(partner) + YesFlag(dependents)
  }

  lemma FamilySizeIsCaseExact()
    ensures FamilySize(Str("yes"), Str("YES")) == 0
    ensures FamilySize(Str("Yes"), Str("No")) == 1
    ensures FamilySize(Missing, Str("Yes")) == 1
  {
  }

  // ---------------------------------------------------------------------------
  // AvgChargesPerMonth

  /** Total charges spread over tenure + 1 months. */
  function AvgCharges(total: real, tenure: real): (avg: real)
    requires tenure != -1.0
    ensures avg * (tenure + 1.0) == total
  {
    total / (tenure + 1.0)
  }

  /** For a non-negative tenure the divisor is at least one, so the average never exceeds the total. */
  lemma AvgChargesBounds(total: real, tenure: real)
    requires tenure >= 0.0 && total >= 0.0
    ensures 0.0 <= AvgCharges(total, tenure) <= total
    ensures tenure == 0.0 ==> AvgCharges(total, tenure) == total
  {
  }

  /**
   * The cells pandas can divide without a TypeError. `tenure + 1` fails on a string tenure.
   * Dividing an object column is retried only where both operands are present, so a string
   * total fails beside a number but not beside a missing tenure.
   */
  predicate Divisible(total: Value, tenure: Value) {
    !tenure.Str? && (total.Str? ==> tenure.Missing?)
  }

  /** The cell-wise division: a missing operand gives a missing result. */
  function AvgChargesCell(total: Value, tenure: Value): (avg: Value)
    requires Divisible(total, tenure) && tenure != Num(-1.0)
    ensures avg.Num? || avg.Missing?
    ensures avg.Num? <==> total.Num? && tenure.Num?
    ensures avg.Num? ==> avg.x * (tenure.x + 1.0) == total.x
  {
    if total.Num? && tenure.Num? then Num(AvgCharges(total.x, tenure.x)) else Missing
  }

  // ---------------------------------------------------------------------------
  // TenureGroup

  predicate StrictlyIncreasing(edges: seq<real>) {
    forall i, j :: 0 <= i < j < |edges| ==> edges[i] < edges[j]
  }

  /**
   * The index of the right-closed interval (edges[k], edges[k + 1]] holding x, as pd.cut
   * computes it with its default right=True and include_lowest=False; None when x lies
   * at or below the first edge or above the last.
   */
  function Cut(x: real, edges: seq<real>): (k: Option<nat>)
    requires StrictlyIncreasing(edges)
    ensures k.Some? <==> |edges| >= 2 && edges[0] < x <= edges[|edges| - 1]
    ensures k.Some? ==> k.value + 1 < |edges| && edges[k.value] < x <= edges[k.value + 1]
    decreases |edges|
  {
    if |edges| < 2 then None
    else if edges[0] < x <= edges[1] then Some(0)
    else match Cut(x, edges[1..])
      case None => None
      case Some(j) => Some(j + 1)
  }

  /** The tenure bucket label, 1 to 5, or None when tenure falls outside (0, 100]. */
  function TenureGroup(tenure: real): (g: Option<int>)
    ensures g.Some? <==> 0.0 < tenure <= 100.0
    ensures g.Some? ==> 1 <= g.value <= 5
    ensures g.Some? ==> TenureEdges[g.value - 1] < tenure <= TenureEdges[g.value]
  {
    assert StrictlyIncreasing(TenureEdges);
    match Cut(tenure, TenureEdges)
    case None => None
    case Some(k) => Some(TenureLabels[k])
  }

  /** The buckets spelled out: every interval is closed on the right and open on the left. */
  lemma TenureGroupBuckets(tenure: real)
    ensures TenureGroup(tenure) ==
      if tenure <= 0.0 || tenure > 100.0 then None
      else if tenure <= 12.0 then Some(1)
      else if tenure <= 24.0 then Some(2)
      else if tenure <= 48.0 then Some(3)
      else if tenure <= 60.0 then Some(4)
      else Some(5)
  {
  }

  lemma TenureGroupBoundaries()
    ensures TenureGroup(0.0) == None
    ensures TenureGroup(12.0) == Some(1) && TenureGroup(13.0) == Some(2)
    ensures TenureGroup(24.0) == Some(2) && TenureGroup(48.0) == Some(3)
    ensures TenureGroup(60.0) == Some(4) && TenureGroup(100.0) == Some(5)
    ensures TenureGroup(101.0) == None && TenureGroup(-1.0) == None
  {
  }

  /** Within (0, 100] a longer tenure never gets a lower bucket. */
  lemma TenureGroupMonotone(a: real, b: real)
    requires 0.0 < a <= b <= 100.0
    ensures TenureGroup(a).Some? && TenureGroup(b).Some?
    ensures TenureGroup(a).value <= TenureGroup(b).value
  {
  }

  /** The cell-wise bucket: a missing tenure, or one outside (0, 100], gives a missing bucket. */
  function TenureGroupCell(tenure: Value): (g: Value)
    requires !tenure.Str?
    ensures g.Num? || g.Missing?
    ensures g.Missing? <==> tenure.Missing? || tenure.x <= 0.0 || tenure.x > 100.0
    ensures g.Num? ==> g.x in {1.0, 2.0, 3.0, 4.0, 5.0}
    ensures g.Num? ==> TenureEdges[g.x.Floor - 1] < tenure.x <= TenureEdges[g.x.Floor]
  {
    if tenure.Missing? then Missing
    else match TenureGroup(tenure.x)
      case None => Missing
      case Some(k) => Num(k as real)
  }

  // ---------------------------------------------------------------------------
  // The transform

  /** A row the transform accepts: it has the required columns and cells it can divide and bin. */
  predicate Engineerable(row: Row) {
    && RequiredColumns <= row.Keys
    && Divisible(row[TotalCharges], row[Tenure])
    && row[Tenure] != Num(-1.0)
  }

  /** One row of the copy: the original cells plus the three derived ones. */
  function TransformRow(row: Row): (r: Row)
    requires Engineerable(row)
    ensures r.Keys == row.Keys + DerivedColumns
    ensures forall c :: c in row && c !in DerivedColumns ==> r[c] == row[c]
    ensures r[FamilySizeColumn] == Num(FamilySize(row[Partner], row[Dependents]) as real)
    ensures r[AvgChargesColumn] == AvgChargesCell(row[TotalCharges], row[Tenure])
    ensures r[TenureGroupColumn] == TenureGroupCell(row[Tenure])
  {
    row[FamilySizeColumn := Num(FamilySize(row[Partner], row[Dependents]) as real)]
       [AvgChargesColumn := AvgChargesCell(row[TotalCharges], row[Tenure])]
       [TenureGroupColumn := TenureGroupCell(row[Tenure])]
  }

  /** No tenure cell is -1, where the divisor `tenure + 1` would be zero. */
  predicate NoTenureMinusOne(x: Table) {
    forall i :: 0 <= i < |x.rows| && Tenure in x.rows[i] ==> x.rows[i][Tenure] != Num(-1.0)
  }

  /** Every row's total charges and tenure can be divided without a TypeError. */
  predicate DivisibleInputs(x: Table)
    requires x.WellFormed() && RequiredColumns <= x.columns
  {
    forall i :: 0 <= i < |x.rows| ==> Divisible(x.rows[i][TotalCharges], x.rows[i][Tenure])
  }

  /** The transformer. It holds no state: fitting it learns nothing. */
  datatype FeatureEngineer = FeatureEngineer {

    function Fit(x: Table, y: seq<Value>): (fitted: FeatureEngineer)
      ensures fitted == this
    {
      this
    }

    function Transform(x: Table): (r: Result<Table, FrameError>)
      requires x.WellFormed() && NoTenureMinusOne(x)
      ensures !(RequiredColumns <= x.columns) <==> r.Failure? && r.error.KeyError?
      ensures r.Failure? && r.error.KeyError? ==>
        r.error.column in RequiredColumns && r.error.column !in x.columns
      ensures Partner !in x.columns ==> r == Failure(KeyError(Partner))
      ensures Partner in x.columns && Dependents !in x.columns ==> r == Failure(KeyError(Dependents))
      ensures {Partner, Dependents} <= x.columns && TotalCharges !in x.columns ==>
        r == Failure(KeyError(TotalCharges))
      ensures {Partner, Dependents, TotalCharges} <= x.columns && Tenure !in x.columns ==>
        r == Failure(KeyError(Tenure))
      ensures RequiredColumns <= x.columns ==> (r.Failure? <==> !DivisibleInputs(x))
      ensures r.Failure? ==> r.error.KeyError? || r.error.TypeError?
      ensures r.Success? ==> r.value.WellFormed()
      ensures r.Success? ==> r.value.columns == x.columns + DerivedColumns
      ensures r.Success? ==> |r.value.rows| == |x.rows|
      ensures r.Success? ==> forall i :: 0 <= i < |x.rows| ==> r.value.rows[i] == TransformRow(x.rows[i])
    {
      if Partner !in x.columns then Failure(KeyError(Partner))
      else if Dependents !in x.columns then Failure(KeyError(Dependents))
      else if TotalCharges !in x.columns then Failure(KeyError(TotalCharges))
      else if Tenure !in x.columns then Failure(KeyError(Tenure))
      else if !DivisibleInputs(x) then Failure(TypeError)
      else Success(Table(x.columns + DerivedColumns,
                         seq(|x.rows|, i requires 0 <= i < |x.rows| => TransformRow(x.rows[i]))))
    }
  }

  /** Every original cell survives the transform, except those of the derived columns themselves. */
  lemma TransformPreservesCells(fe: FeatureEngineer, x: Table, i: int, c: string)
    requires x.WellFormed() && NoTenureMinusOne(x)
    requires fe.Transform(x).Success?
    requires 0 <= i < |x.rows| && c in x.columns && c !in DerivedColumns
    ensures fe.Transform(x).value.rows[i][c] == x.rows[i][c]
  {
  }

  /** A one-row table of an engineerable row is accepted, and its row is transformed on its own. */
  lemma TransformOneRow(fe: FeatureEngineer, row: Row)
    requires Engineerable(row)
    ensures var x := Table(row.Keys, [row]);
      && x.WellFormed() && NoTenureMinusOne(x) && fe.Transform(x).Success?
      && fe.Transform(x).value.rows == [TransformRow(row)]
  {
    assert DivisibleInputs(Table(row.Keys, [row]));
  }

  /**
   * A string total charge beside a missing tenure is left out of the division, so the row
   * gets a missing average and bucket; beside a numeric tenure it raises a TypeError.
   */
  lemma TransformMaskedDivision(fe: FeatureEngineer)
    ensures var x := Table(RequiredColumns, [map[Partner := Str("No"), Dependents := Str("No"),
                                                TotalCharges := Str("abc"), Tenure := Missing]]);
      && fe.Transform(x).Success?
      && fe.Transform(x).value.rows[0][AvgChargesColumn] == Missing
      && fe.Transform(x).value.rows[0][TenureGroupColumn] == Missing
    ensures var x := Table(RequiredColumns, [map[Partner := Str("No"), Dependents := Str("No"),
                                                TotalCharges := Str("abc"), Tenure := Num(5.0)]]);
      fe.Transform(x) == Failure(TypeError)
  {
    var row := map[Partner := Str("No"), Dependents := Str("No"), TotalCharges := Str("abc"), Tenure := Missing];
    assert row.Keys == RequiredColumns;
    TransformOneRow(fe, row);
    var bad := map[Partner := Str("No"), Dependents := Str("No"), TotalCharges := Str("abc"), Tenure := Num(5.0)];
    assert bad.Keys == RequiredColumns;
    var y := Table(RequiredColumns, [bad]);
    assert !Divisible(y.rows[0][TotalCharges], y.rows[0][Tenure]);
  }

  /** Transforming a transformed row again recomputes the same derived cells. */
  lemma TransformRowIdempotent(row: Row)
    requires Engineerable(row)
    ensures Engineerable(TransformRow(row))
    ensures TransformRow(TransformRow(row)) == TransformRow(row)
  {
  }

  /** Running the transform on its own output changes nothing. */
  lemma TransformIdempotent(fe: FeatureEngineer, x: Table)
    requires x.WellFormed() && NoTenureMinusOne(x)
    requires fe.Transform(x).Success?
    ensures var y := fe.Transform(x).value;
      NoTenureMinusOne(y) && fe.Transform(y) == Success(y)
  {
    var y := fe.Transform(x).value;
    assert forall c :: c in RequiredColumns ==> c !in DerivedColumns;
    forall i | 0 <= i < |x.rows|
      ensures y.rows[i][Tenure] == x.rows[i][Tenure] && y.rows[i][TotalCharges] == x.rows[i][TotalCharges]
      ensures TransformRow(y.rows[i]) == y.rows[i]
    {
      TransformRowIdempotent(x.rows[i]);
    }
    var z := fe.Transform(y).value;
    assert z.rows == y.rows;
  }
}
