/** The value diff and the statistics report both comparators return, with the
    regression flag and the summary counts computed from a schema diff and a
    value diff. Percentages are exact; the report's rounding to two decimals is
    not part of the model. */
module Report {
  import opened Tables
  import opened Schema

  datatype ColumnChange = ColumnChange(changedRows: nat, percentage: real)

  /** `row_count_change`; `difference` is absent from the parquet comparator's equal-count result. */
  datatype RowCountChange = RowCountChange(previous: nat, current: nat, difference: Option<int>)

  /** `value_changes`: keys the source leaves out of a result are `None`. */
  datatype ValueDiff = ValueDiff(
    rowCountChange: RowCountChange,
    percentageRowChange: Option<real>,
    columnsWithValueChanges: Option<map<string, ColumnChange>>)

  datatype Summary = Summary(totalSchemaIssues: nat, columnsWithValueChanges: nat)

  /** The report of `generate_statistics`, without its wall-clock timestamp. */
  datatype Statistics = Statistics(
    schemaChanges: SchemaDiff,
    valueChanges: ValueDiff,
    potentialRegression: bool,
    summary: Summary)

  /** `part / whole * 100`. */
  function Percentage(part: nat, whole: nat): (p: real)
    requires whole > 0
    ensures p >= 0.0
    ensures part <= whole ==> p <= 100.0
    ensures p == 0.0 <==> part == 0
  {
    (part as real / whole as real) * 100.0
  }

  /** `value_diff.get("row_count_change", {}).get("difference", 0)`. */
  function RowDifference(vd: ValueDiff): int {
    vd.rowCountChange.difference.GetOr(0)
  }

  /** `value_diff.get("columns_with_value_changes", {})`. */
  function ChangedColumns(vd: ValueDiff): map<string, ColumnChange> {
    vd.columnsWithValueChanges.GetOr(map[])
  }

  /** The regression test: a removed column, any type change, fewer rows, or a changed column. */
  predicate PotentialRegression(sd: SchemaDiff, vd: ValueDiff) {
    || sd.removedColumns != {}
    || sd.typeChanges != map[]
    || RowDifference(vd) < 0
    || ChangedColumns(vd) != map[]
  }

  /** `generate_statistics` once both diffs are known. */
  function StatisticsOf(sd: SchemaDiff, vd: ValueDiff): (s: Statistics)
    ensures s.schemaChanges == sd && s.valueChanges == vd
    ensures s.potentialRegression <==>
              s.summary.totalSchemaIssues > 0 || RowDifference(vd) < 0 || s.summary.columnsWithValueChanges > 0
    ensures s.summary.totalSchemaIssues == |sd.removedColumns| + |sd.typeChanges|
    ensures s.summary.columnsWithValueChanges == |ChangedColumns(vd)|
  {
    Statistics(sd, vd, PotentialRegression(sd, vd),
               Summary(|sd.removedColumns| + |sd.typeChanges|, |ChangedColumns(vd)|))
  }

  /** Fewer current rows is always reported as a potential regression. */
  lemma RowDecreaseIsRegression(sd: SchemaDiff, vd: ValueDiff)
    requires vd.rowCountChange.difference == Some(vd.rowCountChange.current - vd.rowCountChange.previous)
    requires vd.rowCountChange.current < vd.rowCountChange.previous
    ensures StatisticsOf(sd, vd).potentialRegression
  {
  }

  /** More current rows alone is no regression. */
  lemma RowIncreaseAloneIsNoRegression(sd: SchemaDiff, vd: ValueDiff)
    requires vd.rowCountChange.difference == Some(vd.rowCountChange.current - vd.rowCountChange.previous)
    requires vd.rowCountChange.current >= vd.rowCountChange.previous
    requires sd.removedColumns == {} && sd.typeChanges == map[] && ChangedColumns(vd) == map[]
    ensures !StatisticsOf(sd, vd).potentialRegression
  {
  }
}
