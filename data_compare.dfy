/** The data comparator (`DFComparator`): the value diff, specified by
    functions of the two tables, and the comparator object, whose
    `CompareValues` replaces its held tables by their filtered, re-indexed
    versions as it goes. */
module DataCompare {
  import opened Tables
  import opened TypeCompat
  import opened Schema
  import opened Report
  import opened RowFilter
  import opened Alignment

  /** The columns whose recorded type change is not compatible. */
  function IncompatibleColumns(typeChanges: map<string, TypeChange>): (cols: set<string>)
    ensures cols <= typeChanges.Keys
    ensures forall c :: c in typeChanges && Lower(typeChanges[c].previous) == Lower(typeChanges[c].current) ==> c !in cols
    ensures forall c :: c in typeChanges ==>
              (c in cols <==> !AreTypesCompatible(typeChanges[c].previous, typeChanges[c].current))
  {
    set c | c in typeChanges && !AreTypesCompatible(typeChanges[c].previous, typeChanges[c].current)
  }

  /** The common columns minus the incompatible ones, in the current table's column order. */
  function ComparedColumns(current: Table, previous: Table, incompatible: set<string>): (cols: seq<string>)
    ensures forall c :: c in cols <==> c in current.columns && c in previous.columns && c !in incompatible
    ensures Distinct(current.columns) ==> Distinct(cols)
  {
    Without(current.columns, (Elems(current.columns) - Elems(previous.columns)) + incompatible)
  }

  /** A table holding only `cols`, with the given rows and no index levels. */
  function Restricted(t: Table, cols: seq<string>, rows: seq<Row>): Table {
    Table(cols, [], map c | c in cols && c in t.dtypes :: t.dtypes[c], rows)
  }

  /** The held tables right after the unchanged-row filter. */
  function FilteredTables(current: Table, previous: Table, sd: SchemaDiff): (r: (Table, Table))
    ensures r.0.columns == r.1.columns && r.0.index == r.1.index == []
    ensures forall c :: c in r.0.columns <==>
              c in current.columns && c in previous.columns && c !in IncompatibleColumns(sd.typeChanges)
    ensures (r.0.rows, r.1.rows) == FilterUnchanged(current.rows, previous.rows, Elems(r.0.columns))
    ensures |r.0.rows| <= |current.rows| && |r.1.rows| <= |previous.rows|
  {
    var cols := ComparedColumns(current, previous, IncompatibleColumns(sd.typeChanges));
    var survivors := FilterUnchanged(current.rows, previous.rows, Elems(cols));
    (Restricted(current, cols, survivors.0), Restricted(previous, cols, survivors.1))
  }

  /** The first key column, in key order, that is not among `cols`. */
  function FirstMissingKey(keys: seq<string>, cols: seq<string>): (m: Option<string>)
    ensures m.None? <==> forall k :: k in keys ==> k in cols
    ensures m.Some? ==> m.value in keys && m.value !in cols
    ensures m.Some? ==> exists i :: 0 <= i < |keys| && keys[i] == m.value && forall j :: 0 <= j < i ==> keys[j] in cols
  {
    if keys == [] then None
    else if keys[0] !in cols then Some(keys[0])
    else FirstMissingKey(keys[1..], cols)
  }

  /** `set_index(keys, inplace=True)` on a table with no index levels. */
  function SetIndex(t: Table, keys: seq<string>): (r: Table)
    ensures r.index == keys
    ensures forall c :: c in r.columns <==> c in t.columns && c !in keys
    ensures Distinct(t.columns) ==> Distinct(r.columns)
    ensures r.rows == t.rows && r.dtypes == t.dtypes
  {
    t.(columns := Without(t.columns, Elems(keys)), index := keys)
  }

  /** `reset_index(inplace=True)`: the index levels become the first columns. */
  function ResetIndex(t: Table): (r: Table)
    ensures r.index == [] && |r.columns| == |t.index| + |t.columns|
    ensures r.columns[..|t.index|] == t.index && r.columns[|t.index|..] == t.columns
    ensures forall c :: c in r.columns <==> c in t.index || c in t.columns
    ensures r.rows == t.rows && r.dtypes == t.dtypes
  {
    t.(columns := t.index + t.columns, index := [])
  }

  /** The changed-cell count of column `c`: positional on the fast path,
      over key-sharing row pairs on the merge fallback. */
  function ColumnCount(current: seq<Row>, previous: seq<Row>, keys: seq<string>, c: string, merged: bool): nat
    requires HasColumn(current, c) && HasColumn(previous, c)
    requires HasKeys(current, keys) && HasKeys(previous, keys)
    requires !merged ==> |current| == |previous|
  {
    if merged then PairMismatches(previous, current, keys, c) else NullSafeMismatches(current, previous, c)
  }

  /** The `value_changes` map built over the columns `cols`: an entry for each
      column with a nonzero count, with its percentage of `base` rows. */
  function ChangesOver(current: seq<Row>, previous: seq<Row>, keys: seq<string>, cols: seq<string>, merged: bool, base: nat)
    : (m: map<string, ColumnChange>)
    requires forall c :: c in cols ==> HasColumn(current, c) && HasColumn(previous, c)
    requires HasKeys(current, keys) && HasKeys(previous, keys)
    requires !merged ==> |current| == |previous|
    requires base > 0
    ensures forall c :: c in m <==> c in cols && ColumnCount(current, previous, keys, c, merged) > 0
    ensures forall c :: c in m ==> m[c] == ColumnChange(ColumnCount(current, previous, keys, c, merged),
                                                       Percentage(ColumnCount(current, previous, keys, c, merged), base))
  {
    if cols == [] then map[]
    else
      var c := cols[|cols| - 1];
      var m := ChangesOver(current, previous, keys, cols[..|cols| - 1], merged, base);
      assert forall d :: d in cols <==> d in cols[..|cols| - 1] || d == c;
      var n := ColumnCount(current, previous, keys, c, merged);
      if n > 0 then m[c := ColumnChange(n, Percentage(n, base))] else m
  }

  /** Extending the examined columns by one adds that column's entry when its count is nonzero. */
  lemma ChangesOverExtend(current: seq<Row>, previous: seq<Row>, keys: seq<string>, cols: seq<string>, j: nat, merged: bool, base: nat)
    requires j < |cols|
    requires forall c :: c in cols ==> HasColumn(current, c) && HasColumn(previous, c)
    requires HasKeys(current, keys) && HasKeys(previous, keys)
    requires !merged ==> |current| == |previous|
    requires base > 0
    ensures
      var n := ColumnCount(current, previous, keys, cols[j], merged);
      ChangesOver(current, previous, keys, cols[..j + 1], merged, base) ==
        if n > 0 then ChangesOver(current, previous, keys, cols[..j], merged, base)[cols[j] := ColumnChange(n, Percentage(n, base))]
        else ChangesOver(current, previous, keys, cols[..j], merged, base)
  {
    assert cols[..j + 1][..j] == cols[..j];
  }

  /** The fast path applies when `==` on the key-indexed columns does not raise:
      there is no column to compare, or both indexes hold the same labels in the same order. */
  predicate FastPathApplies(current: seq<Row>, previous: seq<Row>, keys: seq<string>, nonKey: seq<string>)
    requires HasKeys(current, keys) && HasKeys(previous, keys)
    ensures nonKey != [] ==>
              (FastPathApplies(current, previous, keys, nonKey) <==>
                 && |current| == |previous|
                 && forall i :: 0 <= i < |current| ==> KeyOf(current[i], keys) == KeyOf(previous[i], keys))
  {
    var a, b := KeysOf(current, keys), KeysOf(previous, keys);
    assert forall i :: 0 <= i < |a| ==> a[i] == KeyOf(current[i], keys);
    assert forall i :: 0 <= i < |b| ==> b[i] == KeyOf(previous[i], keys);
    assert (|a| == |b| && forall i :: 0 <= i < |a| ==> a[i] == b[i]) ==> a == b;
    nonKey == [] || a == b
  }

  /** The columns compared by value: the filtered columns that are not key columns. */
  function NonKeyColumns(cols: seq<string>, keys: seq<string>): seq<string> {
    Without(cols, Elems(keys))
  }

  /** The value changes found once the key columns are known to be present. */
  function KeyedChanges(fc: Table, fp: Table, keys: seq<string>, base: nat): (m: map<string, ColumnChange>)
    requires RowsOver(fc.rows, Elems(fc.columns)) && RowsOver(fp.rows, Elems(fc.columns))
    requires forall k :: k in keys ==> k in fc.columns
    requires base > 0
    ensures forall c :: c in m ==> c in fc.columns && c !in keys && m[c].changedRows > 0
    ensures
      var nonKey := NonKeyColumns(fc.columns, keys);
      var merged := !FastPathApplies(fc.rows, fp.rows, keys, nonKey);
      forall c :: c in m <==> c in nonKey && ColumnCount(fc.rows, fp.rows, keys, c, merged) > 0
    ensures
      var nonKey := NonKeyColumns(fc.columns, keys);
      var merged := !FastPathApplies(fc.rows, fp.rows, keys, nonKey);
      forall c :: c in m ==> m[c] == ColumnChange(ColumnCount(fc.rows, fp.rows, keys, c, merged),
                                                 Percentage(ColumnCount(fc.rows, fp.rows, keys, c, merged), base))
  {
    var nonKey := NonKeyColumns(fc.columns, keys);
    if nonKey == [] then map[]
    else ChangesOver(fc.rows, fp.rows, keys, nonKey, !FastPathApplies(fc.rows, fp.rows, keys, nonKey), base)
  }

  /** `compare_values`: the value diff, or the `KeyError` of a key column
      missing from the filtered current table. */
  function ValueDiffOf(current: Table, previous: Table, keys: seq<string>, sd: SchemaDiff): (r: Outcome<ValueDiff>)
    requires WellFormed(current) && WellFormed(previous)
    ensures r.Ok? ==>
              r.value.rowCountChange == RowCountChange(|previous.rows|, |current.rows|, Some(|current.rows| - |previous.rows|))
    ensures |current.rows| != |previous.rows| ==>
              r.Ok? && r.value.percentageRowChange.None? && r.value.columnsWithValueChanges.None?
    ensures r.KeyError? <==>
              && |current.rows| == |previous.rows| > 0
              && exists k :: k in keys && k !in ComparedColumns(current, previous, IncompatibleColumns(sd.typeChanges))
    ensures r.KeyError? ==> r.column in keys
    ensures r.Ok? && |current.rows| == |previous.rows| ==>
              && r.value.percentageRowChange.Some?
              && 0.0 <= r.value.percentageRowChange.value <= 100.0
              && r.value.columnsWithValueChanges.Some?
    ensures r.Ok? && keys == [] ==> ChangedColumns(r.value) == map[]
    ensures r.Ok? ==> forall c :: c in ChangedColumns(r.value) ==>
              && c in ComparedColumns(current, previous, IncompatibleColumns(sd.typeChanges))
              && c !in keys
              && ChangedColumns(r.value)[c].changedRows > 0
  {
    var n, m := |current.rows|, |previous.rows|;
    if n != m then
      Ok(ValueDiff(RowCountChange(m, n, Some(n - m)), None, None))
    else if n == 0 then
      Ok(ValueDiff(RowCountChange(0, 0, Some(0)), Some(0.0), Some(map[])))
    else
      var (fc, fp) := FilteredTables(current, previous, sd);
      var missing := FirstMissingKey(keys, fc.columns);
      if keys != [] && missing.Some? then KeyError(missing.value)
      else
        FilterUnchangedRowsOver(current.rows, previous.rows, Elems(fc.columns));
        var changes := if keys == [] then map[] else KeyedChanges(fc, fp, keys, n);
        Ok(ValueDiff(RowCountChange(m, n, Some(n - m)), Some(Percentage(|fc.rows|, n)), Some(changes)))
  }

  /** Two empty tables give the safe empty comparison: zero counts and
      difference, 0% changed rows and no changed column, whatever the keys. */
  lemma BothEmptyValueDiff(current: Table, previous: Table, keys: seq<string>, sd: SchemaDiff)
    requires WellFormed(current) && WellFormed(previous)
    requires current.rows == [] && previous.rows == []
    ensures ValueDiffOf(current, previous, keys, sd) == Ok(ValueDiff(RowCountChange(0, 0, Some(0)), Some(0.0), Some(map[])))
  {
  }

  /** The tables the comparator holds after `compare_values`: untouched by the
      early returns, filtered once values are compared, then indexed by the
      keys, and back to no index levels when the fast path raised. */
  function HeldTablesAfter(current: Table, previous: Table, keys: seq<string>, sd: SchemaDiff): (r: (Table, Table))
    requires WellFormed(current) && WellFormed(previous)
    ensures |current.rows| == |previous.rows| > 0 ==>
              r.0.index == r.1.index && (r.0.index == [] || r.0.index == keys)
  {
    var n, m := |current.rows|, |previous.rows|;
    if n != m || n == 0 then (current, previous)
    else
      var (fc, fp) := FilteredTables(current, previous, sd);
      if keys == [] || FirstMissingKey(keys, fc.columns).Some? then (fc, fp)
      else
        FilterUnchangedRowsOver(current.rows, previous.rows, Elems(fc.columns));
        var (sc, sp) := (SetIndex(fc, keys), SetIndex(fp, keys));
        if FastPathApplies(fc.rows, fp.rows, keys, NonKeyColumns(fc.columns, keys)) then (sc, sp)
        else (ResetIndex(sc), ResetIndex(sp))
  }

  /** The early returns leave the held tables alone; otherwise they hold the
      filtered rows, whatever indexing follows, and no more rows than before. */
  lemma HeldTablesRows(current: Table, previous: Table, keys: seq<string>, sd: SchemaDiff)
    requires WellFormed(current) && WellFormed(previous)
    ensures |current.rows| != |previous.rows| || |current.rows| == 0 ==>
              HeldTablesAfter(current, previous, keys, sd) == (current, previous)
    ensures |current.rows| == |previous.rows| > 0 ==>
              && HeldTablesAfter(current, previous, keys, sd).0.rows == FilteredTables(current, previous, sd).0.rows
              && HeldTablesAfter(current, previous, keys, sd).1.rows == FilteredTables(current, previous, sd).1.rows
              && |HeldTablesAfter(current, previous, keys, sd).0.rows| <= |current.rows|
              && |HeldTablesAfter(current, previous, keys, sd).1.rows| <= |previous.rows|
  {
    if |current.rows| == |previous.rows| > 0 {
      var (fc, fp) := FilteredTables(current, previous, sd);
      if keys != [] && FirstMissingKey(keys, fc.columns).None? {
        KeysPresentOutcome(current, previous, keys, sd, fc, fp);
      } else {
        KeysAbsentOutcome(current, previous, keys, sd, fc, fp);
      }
    }
  }

  /** Once the filter has run and every key column is present, the value diff
      is the keyed change map and the held tables are the indexed filtered ones. */
  lemma KeysPresentOutcome(current: Table, previous: Table, keys: seq<string>, sd: SchemaDiff, fc: Table, fp: Table)
    requires WellFormed(current) && WellFormed(previous)
    requires |current.rows| == |previous.rows| > 0
    requires (fc, fp) == FilteredTables(current, previous, sd)
    requires keys != [] && forall k :: k in keys ==> k in fc.columns
    ensures RowsOver(fc.rows, Elems(fc.columns)) && RowsOver(fp.rows, Elems(fc.columns))
    ensures ValueDiffOf(current, previous, keys, sd) ==
              Ok(ValueDiff(RowCountChange(|previous.rows|, |current.rows|, Some(0)),
                           Some(Percentage(|fc.rows|, |current.rows|)), Some(KeyedChanges(fc, fp, keys, |current.rows|))))
    ensures HeldTablesAfter(current, previous, keys, sd) ==
              if FastPathApplies(fc.rows, fp.rows, keys, NonKeyColumns(fc.columns, keys))
              then (SetIndex(fc, keys), SetIndex(fp, keys))
              else (ResetIndex(SetIndex(fc, keys)), ResetIndex(SetIndex(fp, keys)))
  {
    FilterUnchangedRowsOver(current.rows, previous.rows, Elems(fc.columns));
  }

  /** Once the filter has run, the first absent key column is raised, or with
      no keys nothing is compared; either way the held tables stay filtered. */
  lemma KeysAbsentOutcome(current: Table, previous: Table, keys: seq<string>, sd: SchemaDiff, fc: Table, fp: Table)
    requires WellFormed(current) && WellFormed(previous)
    requires |current.rows| == |previous.rows| > 0
    requires (fc, fp) == FilteredTables(current, previous, sd)
    requires keys == [] || FirstMissingKey(keys, fc.columns).Some?
    ensures ValueDiffOf(current, previous, keys, sd) ==
              if keys == [] then Ok(ValueDiff(RowCountChange(|previous.rows|, |current.rows|, Some(0)),
                                              Some(Percentage(|fc.rows|, |current.rows|)), Some(map[])))
              else KeyError(FirstMissingKey(keys, fc.columns).value)
    ensures HeldTablesAfter(current, previous, keys, sd) == (fc, fp)
  {
  }

  /** The key-indexed rows hold every compared column and every key. */
  lemma IndexedColumnsPresent(fc: Table, fp: Table, keys: seq<string>)
    requires RowsOver(fc.rows, Elems(fc.columns)) && RowsOver(fp.rows, Elems(fc.columns))
    requires forall k :: k in keys ==> k in fc.columns
    ensures forall c :: c in NonKeyColumns(fc.columns, keys) ==> HasColumn(fc.rows, c) && HasColumn(fp.rows, c)
    ensures HasKeys(fc.rows, keys) && HasKeys(fp.rows, keys)
  {
  }

  /** A table restricted to distinct columns it has, over rows holding exactly those cells, is well formed. */
  lemma RestrictedWellFormed(t: Table, cols: seq<string>, rows: seq<Row>)
    requires SchemaWellFormed(t) && Distinct(cols)
    requires forall c :: c in cols ==> c in t.columns
    requires RowsOver(rows, Elems(cols))
    ensures WellFormed(Restricted(t, cols, rows))
  {
  }

  /** Indexing a well-formed positional table by distinct key columns it holds keeps it well formed,
      and so does moving the keys back into the columns. */
  lemma IndexingWellFormed(t: Table, keys: seq<string>)
    requires WellFormed(t) && t.index == [] && Distinct(keys)
    requires forall k :: k in keys ==> k in t.columns
    ensures WellFormed(SetIndex(t, keys))
    ensures WellFormed(ResetIndex(SetIndex(t, keys)))
  {
    var rest := Without(t.columns, Elems(keys));
    assert Elems(rest) + Elems(keys) == Elems(t.columns) + Elems(t.index);
    DistinctAppend(keys, rest);
    assert Elems(keys + rest) == Elems(rest) + Elems(keys);
  }

  /** The held tables stay well formed. */
  lemma HeldTablesWellFormed(current: Table, previous: Table, keys: seq<string>, sd: SchemaDiff)
    requires WellFormed(current) && WellFormed(previous) && Distinct(keys)
    ensures WellFormed(HeldTablesAfter(current, previous, keys, sd).0)
    ensures WellFormed(HeldTablesAfter(current, previous, keys, sd).1)
  {
    if |current.rows| == |previous.rows| > 0 {
      var cols := ComparedColumns(current, previous, IncompatibleColumns(sd.typeChanges));
      var survivors := FilterUnchanged(current.rows, previous.rows, Elems(cols));
      var fc, fp := Restricted(current, cols, survivors.0), Restricted(previous, cols, survivors.1);
      FilterUnchangedRowsOver(current.rows, previous.rows, Elems(cols));
      RestrictedWellFormed(current, cols, survivors.0);
      RestrictedWellFormed(previous, cols, survivors.1);
      if keys != [] && FirstMissingKey(keys, fc.columns).None? {
        KeysPresentOutcome(current, previous, keys, sd, fc, fp);
        IndexingWellFormed(fc, keys);
        IndexingWellFormed(fp, keys);
      } else {
        KeysAbsentOutcome(current, previous, keys, sd, fc, fp);
      }
    }
  }

  /** The columns whose non-key names survive `reset_index` are those the fast path compared. */
  lemma ResetKeepsNonKeyColumns(t: Table, keys: seq<string>)
    ensures NonKeyColumns(ResetIndex(SetIndex(t, keys)).columns, keys) == NonKeyColumns(t.columns, keys)
  {
    var rest := Without(t.columns, Elems(keys));
    WithoutAppend(keys, rest, Elems(keys));
    WithoutCovered(keys, Elems(keys));
    WithoutIdempotent(t.columns, Elems(keys));
  }

  /** `generate_statistics`: both diffs and the flag, or the `KeyError` `compare_values` raised. */
  function StatisticsOutcome(current: Table, previous: Table, keys: seq<string>): (r: Outcome<Statistics>)
    requires WellFormed(current) && WellFormed(previous)
    ensures r.KeyError? <==> ValueDiffOf(current, previous, keys, Diff(current, previous)).KeyError?
    ensures r.Ok? ==> r.value.schemaChanges == Diff(current, previous)
    ensures r.Ok? ==> r.value.valueChanges == ValueDiffOf(current, previous, keys, Diff(current, previous)).value
    ensures r.Ok? ==>
              r.value.summary.totalSchemaIssues
                == |Diff(current, previous).removedColumns| + |Diff(current, previous).typeChanges|
    ensures r.Ok? ==> r.value.summary.columnsWithValueChanges == |ChangedColumns(r.value.valueChanges)|
    ensures r.Ok? ==>
              (r.value.potentialRegression <==>
                 || Diff(current, previous).removedColumns != {}
                 || Diff(current, previous).typeChanges != map[]
                 || |current.rows| < |previous.rows|
                 || ChangedColumns(r.value.valueChanges) != map[])
  {
    var sd := Diff(current, previous);
    match ValueDiffOf(current, previous, keys, sd)
    case KeyError(c) => KeyError(c)
    case Ok(vd) => Ok(StatisticsOf(sd, vd))
  }

  /** The loop collecting the columns whose type change is incompatible. */
  method IncompatibleTypeColumns(typeChanges: map<string, TypeChange>) returns (cols: set<string>)
    ensures cols == IncompatibleColumns(typeChanges)
  {
    cols := {};
    var todo := typeChanges.Keys;
    while todo != {}
      invariant todo <= typeChanges.Keys
      invariant forall c :: c in cols <==>
                  c in typeChanges && c !in todo && !AreTypesCompatible(typeChanges[c].previous, typeChanges[c].current)
    {
      var col :| col in todo;
      if !AreTypesCompatible(typeChanges[col].previous, typeChanges[col].current) {
        cols := cols + {col};
      }
      todo := todo - {col};
    }
  }

  /** The fast path's loop over the key-indexed columns. It fails, before
      recording anything, when the two key indexes differ. */
  method IndexedChanges(current: seq<Row>, previous: seq<Row>, keys: seq<string>, cols: seq<string>, base: nat)
    returns (changes: map<string, ColumnChange>, failed: bool)
    requires forall c :: c in cols ==> HasColumn(current, c) && HasColumn(previous, c)
    requires HasKeys(current, keys) && HasKeys(previous, keys)
    requires base > 0
    ensures failed <==> !FastPathApplies(current, previous, keys, cols)
    ensures !failed ==> changes == if cols == [] then map[] else ChangesOver(current, previous, keys, cols, false, base)
  {
    changes, failed := map[], false;
    var j := 0;
    while j < |cols|
      invariant 0 <= j <= |cols|
      invariant j > 0 ==> KeysOf(current, keys) == KeysOf(previous, keys)
      invariant changes == if j == 0 then map[] else ChangesOver(current, previous, keys, cols[..j], false, base)
    {
      if KeysOf(current, keys) != KeysOf(previous, keys) {
        // `==` on differently labelled series raises
        failed := true;
        return;
      }
      ChangesOverExtend(current, previous, keys, cols, j, false, base);
      var col := cols[j];
      var neq := NullSafeMismatches(current, previous, col);
      if neq > 0 {
        changes := changes[col := ColumnChange(neq, Percentage(neq, base))];
      }
      j := j + 1;
    }
    assert cols[..|cols|] == cols;
  }

  /** The fallback's loop over the merged pairs, one column at a time. */
  method MergedChanges(previous: seq<Row>, current: seq<Row>, keys: seq<string>, cols: seq<string>, base: nat)
    returns (changes: map<string, ColumnChange>)
    requires forall c :: c in cols ==> HasColumn(current, c) && HasColumn(previous, c)
    requires HasKeys(current, keys) && HasKeys(previous, keys)
    requires base > 0
    ensures changes == ChangesOver(current, previous, keys, cols, true, base)
  {
    changes := map[];
    var k := 0;
    while k < |cols|
      invariant 0 <= k <= |cols|
      invariant changes == ChangesOver(current, previous, keys, cols[..k], true, base)
    {
      ChangesOverExtend(current, previous, keys, cols, k, true, base);
      var col := cols[k];
      var neq := PairMismatches(previous, current, keys, col);
      if neq > 0 {
        changes := changes[col := ColumnChange(neq, Percentage(neq, base))];
      }
      k := k + 1;
    }
    assert cols[..|cols|] == cols;
  }

  /** The data comparator. It holds the two tables and the primary-key column
      names; `CompareValues` replaces the held tables by their filtered versions
      and indexes them by the keys. */
  class DFComparator {
    var current: Table
    var previous: Table
    const primaryKeys: seq<string>

    ghost predicate Valid()
      reads this
    {
      WellFormed(current) && WellFormed(previous) && Distinct(primaryKeys)
    }

    /** `primary_keys=None` is the empty key list. */
    constructor (dfCurrent: Table, dfPrevious: Table, primaryKeys: seq<string>)
      requires WellFormed(dfCurrent) && WellFormed(dfPrevious) && Distinct(primaryKeys)
      ensures Valid()
      ensures current == dfCurrent && previous == dfPrevious && this.primaryKeys == primaryKeys
    {
      current := dfCurrent;
      previous := dfPrevious;
      this.primaryKeys := primaryKeys;
    }

    method CompareSchema() returns (d: SchemaDiff)
      requires Valid()
      ensures d == Diff(current, previous)
    {
      d := Schema.CompareSchema(current, previous);
    }

    method CompareValues(schemaDiff: SchemaDiff) returns (r: Outcome<ValueDiff>)
      requires Valid()
      modifies this
      ensures Valid()
      ensures r == ValueDiffOf(old(current), old(previous), primaryKeys, schemaDiff)
      ensures (current, previous) == HeldTablesAfter(old(current), old(previous), primaryKeys, schemaDiff)
    {
      var n, m := |current.rows|, |previous.rows|;
      if n != m {
        return Ok(ValueDiff(RowCountChange(m, n, Some(n - m)), None, None));
      }
      if n == 0 {
        return Ok(ValueDiff(RowCountChange(0, 0, Some(0)), Some(0.0), Some(map[])));
      }
      ghost var current0, previous0 := current, previous;
      HeldTablesWellFormed(current0, previous0, primaryKeys, schemaDiff);

      // tag, concatenate, drop every duplicated projection, split back
      var incompatible := IncompatibleTypeColumns(schemaDiff.typeChanges);
      var cols := ComparedColumns(current, previous, incompatible);
      var survivors := FilterUnchanged(current.rows, previous.rows, Elems(cols));
      current, previous := Restricted(current, cols, survivors.0), Restricted(previous, cols, survivors.1);
      ghost var fc, fp := current, previous;
      assert (fc, fp) == FilteredTables(current0, previous0, schemaDiff);

      var valueChanges: map<string, ColumnChange> := map[];
      if primaryKeys != [] {
        var i := 0;
        while i < |primaryKeys|
          invariant 0 <= i <= |primaryKeys|
          invariant FirstMissingKey(primaryKeys, cols) == FirstMissingKey(primaryKeys[i..], cols)
        {
          if primaryKeys[i] !in cols {
            KeysAbsentOutcome(current0, previous0, primaryKeys, schemaDiff, fc, fp);
            return KeyError(primaryKeys[i]);
          }
          assert primaryKeys[i..][1..] == primaryKeys[i + 1..];
          i := i + 1;
        }
        assert FirstMissingKey(primaryKeys, cols).None?;
        KeysPresentOutcome(current0, previous0, primaryKeys, schemaDiff, fc, fp);
        IndexedColumnsPresent(fc, fp, primaryKeys);

        // fast path: compare the key-indexed columns
        current, previous := SetIndex(current, primaryKeys), SetIndex(previous, primaryKeys);
        var failed;
        valueChanges, failed := IndexedChanges(current.rows, previous.rows, primaryKeys, current.columns, n);
        if failed {
          // fallback: outer merge on the keys, compare the pairs present on both sides
          current, previous := ResetIndex(current), ResetIndex(previous);
          ResetKeepsNonKeyColumns(fc, primaryKeys);
          valueChanges := MergedChanges(previous.rows, current.rows, primaryKeys, NonKeyColumns(current.columns, primaryKeys), n);
        }
      } else {
        KeysAbsentOutcome(current0, previous0, primaryKeys, schemaDiff, fc, fp);
      }

      var pctChange := Percentage(|current.rows|, n);
      r := Ok(ValueDiff(RowCountChange(m, n, Some(n - m)), Some(pctChange), Some(valueChanges)));
    }

    method GenerateStatistics() returns (r: Outcome<Statistics>)
      requires Valid()
      modifies this
      ensures Valid()
      ensures r == StatisticsOutcome(old(current), old(previous), primaryKeys)
      ensures (current, previous) == HeldTablesAfter(old(current), old(previous), primaryKeys, Diff(old(current), old(previous)))
    {
      var schemaDiff := CompareSchema();
      var valueDiff := CompareValues(schemaDiff);
      match valueDiff
      case KeyError(c) => r := KeyError(c);
      case Ok(vd) => r := Ok(StatisticsOf(schemaDiff, vd));
    }
  }
}
