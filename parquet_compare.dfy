/** The parquet comparator (`ParquetComparator`): the older comparator over two
    tables read from parquet files. Its schema diff is the shared one; its
    value diff compares every common column whose dtype is unchanged,
    position by position, with plain `!=`, under which two missing cells differ. */
module ParquetCompare {
  import opened Tables
  import opened Schema
  import opened Report
  import opened Alignment

  /** Both tables hold a cell for `c` in every row. */
  lemma CommonColumnPresent(current: Table, previous: Table, c: string)
    requires WellFormed(current) && WellFormed(previous)
    requires c in CommonColumns(current, previous)
    ensures HasColumn(current.rows, c) && HasColumn(previous.rows, c)
  {
  }

  /** Column `c` is in both tables, keeps its dtype and differs under `!=` at some position. */
  predicate Reported(current: Table, previous: Table, c: string)
    ensures Reported(current, previous, c) ==>
              && c in current.dtypes && c in previous.dtypes && current.dtypes[c] == previous.dtypes[c]
              && |current.rows| == |previous.rows| > 0
  {
    && c in current.dtypes && c in previous.dtypes
    && |current.rows| == |previous.rows|
    && HasColumn(current.rows, c) && HasColumn(previous.rows, c)
    && current.dtypes[c] == previous.dtypes[c]
    && Inequalities(current.rows, previous.rows, c) > 0
  }

  /** The entry of a reported column: its `!=` count and that count's percentage of the rows. */
  function EntryOf(current: Table, previous: Table, c: string): (e: ColumnChange)
    requires Reported(current, previous, c)
    ensures 0 < e.changedRows <= |current.rows|
    ensures 0.0 < e.percentage <= 100.0
  {
    var n := Inequalities(current.rows, previous.rows, c);
    ColumnChange(n, Percentage(n, |current.rows|))
  }

  /** The columns of `cols` that are reported, with their entries. */
  function ChangesAmong(current: Table, previous: Table, cols: set<string>): (m: map<string, ColumnChange>)
    ensures forall c :: c in m <==> c in cols && Reported(current, previous, c)
  {
    map c | c in cols && Reported(current, previous, c) :: EntryOf(current, previous, c)
  }

  /** Adding one column to those examined adds its entry when it is reported. */
  lemma ChangesStep(current: Table, previous: Table, done: set<string>, col: string)
    ensures ChangesAmong(current, previous, done + {col}) ==
              if Reported(current, previous, col)
              then ChangesAmong(current, previous, done)[col := EntryOf(current, previous, col)]
              else ChangesAmong(current, previous, done)
  {
    var after, before := ChangesAmong(current, previous, done + {col}), ChangesAmong(current, previous, done);
    var expected := if Reported(current, previous, col) then before[col := EntryOf(current, previous, col)] else before;
    assert after.Keys == expected.Keys;
    forall k | k in after ensures after[k] == expected[k] {
    }
  }

  /** `compare_values`: the row counts alone when they differ; otherwise the
      counts without a `difference` entry and the change map over the common columns. */
  function ValueDiffOf(current: Table, previous: Table): (r: ValueDiff)
    requires WellFormed(current) && WellFormed(previous)
    ensures r.rowCountChange.previous == |previous.rows| && r.rowCountChange.current == |current.rows|
    ensures r.percentageRowChange.None?
    ensures |current.rows| != |previous.rows| ==>
              r.rowCountChange.difference == Some(|current.rows| - |previous.rows|) && r.columnsWithValueChanges.None?
    ensures |current.rows| == |previous.rows| ==>
              r.rowCountChange.difference.None? && r.columnsWithValueChanges.Some?
    ensures ChangedColumns(r).Keys <= CommonColumns(current, previous)
  {
    var n, m := |current.rows|, |previous.rows|;
    if n != m then ValueDiff(RowCountChange(m, n, Some(n - m)), None, None)
    else ValueDiff(RowCountChange(m, n, None), None, Some(ChangesAmong(current, previous, CommonColumns(current, previous))))
  }

  /** `generate_statistics` without the timestamp. */
  function StatisticsOutcome(current: Table, previous: Table): (s: Statistics)
    requires WellFormed(current) && WellFormed(previous)
    ensures s.schemaChanges == Diff(current, previous)
    ensures s.valueChanges == ValueDiffOf(current, previous)
    ensures s.summary.totalSchemaIssues
              == |Diff(current, previous).removedColumns| + |Diff(current, previous).typeChanges|
    ensures s.summary.columnsWithValueChanges == |ChangedColumns(s.valueChanges)|
    ensures s.potentialRegression <==>
              || Diff(current, previous).removedColumns != {}
              || Diff(current, previous).typeChanges != map[]
              || |current.rows| < |previous.rows|
              || ChangedColumns(s.valueChanges) != map[]
  {
    StatisticsOf(Diff(current, previous), ValueDiffOf(current, previous))
  }

  /** The comparator over two tables read from parquet files; nothing updates them afterwards. */
  class ParquetComparator {
    const current: Table
    const previous: Table

    /** The tables stand for the files `pd.read_parquet` reads. */
    constructor (current: Table, previous: Table)
      requires WellFormed(current) && WellFormed(previous)
      ensures this.current == current && this.previous == previous
    {
      this.current := current;
      this.previous := previous;
    }

    method CompareSchema() returns (d: SchemaDiff)
      requires WellFormed(current) && WellFormed(previous)
      ensures d == Diff(current, previous)
    {
      d := Schema.CompareSchema(current, previous);
    }

    method CompareValues() returns (r: ValueDiff)
      requires WellFormed(current) && WellFormed(previous)
      ensures r == ValueDiffOf(current, previous)
    {
      var common := Elems(current.columns) * Elems(previous.columns);
      var n, m := |current.rows|, |previous.rows|;
      if n != m {
        return ValueDiff(RowCountChange(m, n, Some(n - m)), None, None);
      }
      var valueChanges: map<string, ColumnChange> := map[];
      var todo := common;
      while todo != {}
        invariant todo <= common
        invariant valueChanges == ChangesAmong(current, previous, common - todo)
        decreases |todo|
      {
        var col :| col in todo;
        ChangesStep(current, previous, common - todo, col);
        // `==` on the dtype objects, taken here as equality of their text
        if current.dtypes[col] == previous.dtypes[col] {
          CommonColumnPresent(current, previous, col);
          var differences := Inequalities(current.rows, previous.rows, col);
          if differences > 0 {
            valueChanges := valueChanges[col := ColumnChange(differences, Percentage(differences, n))];
          }
        }
        assert common - (todo - {col}) == (common - todo) + {col};
        todo := todo - {col};
      }
      assert common - todo == CommonColumns(current, previous);
      r := ValueDiff(RowCountChange(m, n, None), None, Some(valueChanges));
    }

    method GenerateStatistics() returns (s: Statistics)
      requires WellFormed(current) && WellFormed(previous)
      ensures s == StatisticsOutcome(current, previous)
    {
      var schemaDiff := CompareSchema();
      var valueDiff := CompareValues();
      s := StatisticsOf(schemaDiff, valueDiff);
    }
  }

  /** A column is reported exactly when it is common, keeps its dtype and
      differs under `!=` at some position; its count is at most the row count. */
  lemma ChangedColumnsExactly(current: Table, previous: Table)
    requires WellFormed(current) && WellFormed(previous)
    requires |current.rows| == |previous.rows|
    ensures forall c :: c in ChangedColumns(ValueDiffOf(current, previous)) <==>
              && c in CommonColumns(current, previous)
              && current.dtypes[c] == previous.dtypes[c]
              && exists i :: 0 <= i < |current.rows| && !CellEq(current.rows[i][c], previous.rows[i][c])
    ensures forall c :: c in ChangedColumns(ValueDiffOf(current, previous)) ==>
              && ChangedColumns(ValueDiffOf(current, previous))[c].changedRows == Inequalities(current.rows, previous.rows, c)
              && 0 < ChangedColumns(ValueDiffOf(current, previous))[c].changedRows <= |current.rows|
              && ChangedColumns(ValueDiffOf(current, previous))[c].percentage <= 100.0
  {
    var m := ChangedColumns(ValueDiffOf(current, previous));
    forall c | c in CommonColumns(current, previous)
      ensures HasColumn(current.rows, c) && HasColumn(previous.rows, c)
    {
      CommonColumnPresent(current, previous, c);
    }
  }

  /** A column whose dtype changed is never compared by value. */
  lemma TypeChangeExcludesColumn(current: Table, previous: Table, c: string)
    requires WellFormed(current) && WellFormed(previous)
    requires c in Diff(current, previous).typeChanges
    ensures c !in ChangedColumns(ValueDiffOf(current, previous))
  {
  }

  /** Two missing cells at the same position count as a change. */
  lemma BothMissingIsChange(current: Table, previous: Table, c: string, i: nat)
    requires WellFormed(current) && WellFormed(previous)
    requires |current.rows| == |previous.rows|
    requires c in CommonColumns(current, previous) && current.dtypes[c] == previous.dtypes[c]
    requires i < |current.rows| && current.rows[i][c].Missing? && previous.rows[i][c].Missing?
    ensures c in ChangedColumns(ValueDiffOf(current, previous))
  {
    ChangedColumnsExactly(current, previous);
  }

  /** The absent `difference` of an equal-count result is read as 0: the flag
      then rests on the schema and the changed columns alone. */
  lemma EqualCountsNoRowRegression(current: Table, previous: Table)
    requires WellFormed(current) && WellFormed(previous)
    requires |current.rows| == |previous.rows|
    ensures RowDifference(ValueDiffOf(current, previous)) == 0
    ensures StatisticsOutcome(current, previous).potentialRegression <==>
              || Diff(current, previous).removedColumns != {}
              || Diff(current, previous).typeChanges != map[]
              || ChangedColumns(ValueDiffOf(current, previous)) != map[]
  {
  }
}
