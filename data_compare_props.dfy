/** Properties of the data comparator's value diff that relate several
    operations: reordered rows, the agreement of the merge fallback with the
    fast path, and a single changed cell. */
module DataCompareProperties {
  import opened Tables
  import opened Schema
  import opened Report
  import opened RowFilter
  import opened Alignment
  import opened DataCompare

  /** Projecting rows distributes over concatenation. */
  lemma ProjectRowsAppend(a: seq<Row>, b: seq<Row>, cols: set<string>)
    ensures ProjectRows(a + b, cols) == ProjectRows(a, cols) + ProjectRows(b, cols)
  {
    assert |ProjectRows(a + b, cols)| == |ProjectRows(a, cols) + ProjectRows(b, cols)|;
    forall i | 0 <= i < |a + b|
      ensures ProjectRows(a + b, cols)[i] == (ProjectRows(a, cols) + ProjectRows(b, cols))[i]
    {
      if i < |a| {
        assert (a + b)[i] == a[i];
      } else {
        assert (a + b)[i] == b[i - |a|];
      }
    }
  }

  /** Removing the element at `idx` removes one occurrence of it. */
  lemma RemoveAt<T>(s: seq<T>, idx: nat)
    requires idx < |s|
    ensures s == s[..idx] + [s[idx]] + s[idx + 1..]
    ensures multiset(s[..idx] + s[idx + 1..]) == multiset(s) - multiset{s[idx]}
  {
    assert s == s[..idx] + [s[idx]] + s[idx + 1..];
  }

  /** The projections of a concatenation, counted, are the projections of each part. */
  lemma ProjectedCountsAppend(x: seq<Row>, y: seq<Row>, cols: set<string>)
    ensures multiset(ProjectRows(x + y, cols)) == multiset(ProjectRows(x, cols)) + multiset(ProjectRows(y, cols))
  {
    ProjectRowsAppend(x, y, cols);
  }

  /** An element of `a` found in a permutation `b` of it, and what remains of both. */
  lemma PickOccurrence<T>(a: seq<T>, b: seq<T>) returns (idx: nat)
    requires a != [] && multiset(a) == multiset(b)
    ensures idx < |b| && b[idx] == a[0]
    ensures b == b[..idx] + [b[idx]] + b[idx + 1..]
    ensures a == [a[0]] + a[1..]
    ensures multiset(a[1..]) == multiset(b[..idx] + b[idx + 1..])
  {
    assert a[0] in multiset(b);
    idx :| 0 <= idx < |b| && b[idx] == a[0];
    RemoveAt(b, idx);
    assert a == [a[0]] + a[1..];
    assert multiset(a) == multiset{a[0]} + multiset(a[1..]);
  }

  /** Rows that are a permutation of each other project to a permutation of each other. */
  lemma {:induction false} ProjectRowsPermutation(a: seq<Row>, b: seq<Row>, cols: set<string>)
    requires multiset(a) == multiset(b)
    ensures multiset(ProjectRows(a, cols)) == multiset(ProjectRows(b, cols))
    decreases |a|
  {
    if a != [] {
      var idx := PickOccurrence(a, b);
      ProjectRowsPermutation(a[1..], b[..idx] + b[idx + 1..], cols);
      ProjectedCountsAppend([a[0]], a[1..], cols);
      ProjectedCountsAppend(b[..idx], b[idx + 1..], cols);
      ProjectedCountsAppend(b[..idx] + [b[idx]], b[idx + 1..], cols);
      ProjectedCountsAppend(b[..idx], [b[idx]], cols);
    }
  }

  /** When either filtered side has no rows, no column has a change: a row
      present on one side only is never compared with anything. */
  lemma OneSideEmptyNoChanges(fc: Table, fp: Table, keys: seq<string>, base: nat)
    requires RowsOver(fc.rows, Elems(fc.columns)) && RowsOver(fp.rows, Elems(fc.columns))
    requires forall k :: k in keys ==> k in fc.columns
    requires base > 0
    requires fc.rows == [] || fp.rows == []
    ensures KeyedChanges(fc, fp, keys, base) == map[]
  {
    var nonKey := NonKeyColumns(fc.columns, keys);
    if nonKey != [] {
      var merged := !FastPathApplies(fc.rows, fp.rows, keys, nonKey);
      if !merged {
        assert |fc.rows| == |KeysOf(fc.rows, keys)| == |KeysOf(fp.rows, keys)| == |fp.rows|;
      }
      forall c | c in nonKey ensures ColumnCount(fc.rows, fp.rows, keys, c, merged) == 0 {
      }
    }
  }

  /** Permuted rows leave nothing after the unchanged-row filter. */
  lemma PermutedFilterEmpty(current: Table, previous: Table, sd: SchemaDiff)
    requires multiset(current.rows) == multiset(previous.rows)
    ensures FilteredTables(current, previous, sd).0.rows == []
    ensures FilteredTables(current, previous, sd).1.rows == []
  {
    var cols := ComparedColumns(current, previous, IncompatibleColumns(sd.typeChanges));
    ProjectRowsPermutation(current.rows, previous.rows, Elems(cols));
    PermutedRowsAllDropped(current.rows, previous.rows, Elems(cols));
  }

  /** When the filter leaves no row on one side, no column changes, and the
      row percentage counts the rows left on the other side. */
  lemma EmptySideNoValueChanges(current: Table, previous: Table, keys: seq<string>, sd: SchemaDiff)
    requires WellFormed(current) && WellFormed(previous)
    requires |current.rows| == |previous.rows| > 0
    requires FilteredTables(current, previous, sd).0.rows == [] || FilteredTables(current, previous, sd).1.rows == []
    ensures ValueDiffOf(current, previous, keys, sd).Ok? ==>
              && ValueDiffOf(current, previous, keys, sd).value.percentageRowChange ==
                   Some(Percentage(|FilteredTables(current, previous, sd).0.rows|, |current.rows|))
              && ChangedColumns(ValueDiffOf(current, previous, keys, sd).value) == map[]
  {
    var (fc, fp) := FilteredTables(current, previous, sd);
    if keys != [] && FirstMissingKey(keys, fc.columns).None? {
      EmptySideKeysPresent(current, previous, keys, sd);
    } else {
      KeysAbsentOutcome(current, previous, keys, sd, fc, fp);
    }
  }

  /** `EmptySideNoValueChanges` when the key columns survive the filter. */
  lemma EmptySideKeysPresent(current: Table, previous: Table, keys: seq<string>, sd: SchemaDiff)
    requires WellFormed(current) && WellFormed(previous)
    requires |current.rows| == |previous.rows| > 0
    requires FilteredTables(current, previous, sd).0.rows == [] || FilteredTables(current, previous, sd).1.rows == []
    requires keys != [] && FirstMissingKey(keys, FilteredTables(current, previous, sd).0.columns).None?
    ensures ValueDiffOf(current, previous, keys, sd) ==
              Ok(ValueDiff(RowCountChange(|previous.rows|, |current.rows|, Some(0)),
                           Some(Percentage(|FilteredTables(current, previous, sd).0.rows|, |current.rows|)), Some(map[])))
  {
    var (fc, fp) := FilteredTables(current, previous, sd);
    KeysPresentOutcome(current, previous, keys, sd, fc, fp);
    OneSideEmptyNoChanges(fc, fp, keys, |current.rows|);
  }

  /** When the filter leaves nothing, no column changes and no row counts as changed. */
  lemma EmptyFilterNoValueChanges(current: Table, previous: Table, keys: seq<string>, sd: SchemaDiff)
    requires WellFormed(current) && WellFormed(previous)
    requires |current.rows| == |previous.rows| > 0
    requires FilteredTables(current, previous, sd).0.rows == [] && FilteredTables(current, previous, sd).1.rows == []
    ensures ValueDiffOf(current, previous, keys, sd).Ok? ==>
              && ValueDiffOf(current, previous, keys, sd).value.percentageRowChange == Some(0.0)
              && ChangedColumns(ValueDiffOf(current, previous, keys, sd).value) == map[]
  {
    EmptySideNoValueChanges(current, previous, keys, sd);
  }

  /** The same rows in another order are all filtered out: no column changes
      and no row counts as changed. */
  lemma ReorderedRowsNoValueChanges(current: Table, previous: Table, keys: seq<string>, sd: SchemaDiff)
    requires WellFormed(current) && WellFormed(previous)
    requires multiset(current.rows) == multiset(previous.rows)
    ensures ValueDiffOf(current, previous, keys, sd).Ok? ==>
              && ValueDiffOf(current, previous, keys, sd).value.percentageRowChange == Some(0.0)
              && ChangedColumns(ValueDiffOf(current, previous, keys, sd).value) == map[]
  {
    assert |current.rows| == |multiset(current.rows)| == |previous.rows|;
    if |current.rows| != 0 {
      PermutedFilterEmpty(current, previous, sd);
      EmptyFilterNoValueChanges(current, previous, keys, sd);
    }
  }

  /** When exactly the row at `k` shares `p`'s key, `p` meets one candidate. */
  lemma {:induction false} KeyMatchSingle(p: Row, current: seq<Row>, keys: seq<string>, c: string, k: nat)
    requires c in p && (forall key :: key in keys ==> key in p)
    requires HasColumn(current, c) && HasKeys(current, keys)
    requires k < |current|
    requires forall j :: 0 <= j < |current| ==> (KeyOf(current[j], keys) == KeyOf(p, keys) <==> j == k)
    ensures KeyMatchMismatches(p, current, keys, c) == if current[k][c] == p[c] then 0 else 1
  {
    if k == 0 {
      assert forall j :: 0 <= j < |current[1..]| ==> KeyOf(current[1..][j], keys) != KeyOf(p, keys) by {
        forall j | 0 <= j < |current[1..]| ensures KeyOf(current[1..][j], keys) != KeyOf(p, keys) {
          assert current[1..][j] == current[j + 1];
        }
      }
      assert KeyMatchMismatches(p, current[1..], keys, c) == 0;
    } else {
      forall j | 0 <= j < |current[1..]|
        ensures KeyOf(current[1..][j], keys) == KeyOf(p, keys) <==> j == k - 1
      {
        assert current[1..][j] == current[j + 1];
      }
      KeyMatchSingle(p, current[1..], keys, c, k - 1);
    }
  }

  /** With unique, identically ordered keys the fallback's pair count is the
      fast path's positional count from position `k` on. */
  lemma {:induction false} MergeAgreesFrom(previous: seq<Row>, current: seq<Row>, keys: seq<string>, c: string, k: nat)
    requires HasColumn(previous, c) && HasKeys(previous, keys)
    requires HasColumn(current, c) && HasKeys(current, keys)
    requires KeysOf(current, keys) == KeysOf(previous, keys)
    requires Distinct(KeysOf(previous, keys))
    requires k <= |previous|
    ensures PairMismatches(previous[k..], current, keys, c) == NullSafeMismatches(current[k..], previous[k..], c)
    decreases |previous| - k
  {
    if k < |previous| {
      var ks := KeysOf(previous, keys);
      forall j | 0 <= j < |current|
        ensures KeyOf(current[j], keys) == KeyOf(previous[k], keys) <==> j == k
      {
        assert KeyOf(current[j], keys) == ks[j];
        assert KeyOf(previous[k], keys) == ks[k];
      }
      KeyMatchSingle(previous[k], current, keys, c, k);
      MergeAgreesFrom(previous, current, keys, c, k + 1);
      assert previous[k..][1..] == previous[k + 1..];
      assert current[k..][1..] == current[k + 1..];
    }
  }

  /** When both sides carry the same unique keys in the same order, the merge
      fallback counts exactly what the fast path counts. */
  lemma MergeAgreesWithPositional(previous: seq<Row>, current: seq<Row>, keys: seq<string>, c: string)
    requires HasColumn(previous, c) && HasKeys(previous, keys)
    requires HasColumn(current, c) && HasKeys(current, keys)
    requires KeysOf(current, keys) == KeysOf(previous, keys)
    requires Distinct(KeysOf(previous, keys))
    ensures PairMismatches(previous, current, keys, c) == NullSafeMismatches(current, previous, c)
  {
    MergeAgreesFrom(previous, current, keys, c, 0);
    assert previous[0..] == previous && current[0..] == current;
  }

  /** The table `t` with the cell of row `i` in column `c` replaced by `v`. */
  function WithCell(t: Table, i: nat, c: string, v: Cell): (u: Table)
    requires i < |t.rows| && c in t.rows[i]
    ensures u.columns == t.columns && u.index == t.index && u.dtypes == t.dtypes
    ensures |u.rows| == |t.rows| && u.rows[i] == t.rows[i][c := v]
    ensures forall j :: 0 <= j < |t.rows| && j != i ==> u.rows[j] == t.rows[j]
  {
    t.(rows := t.rows[i := t.rows[i][c := v]])
  }

  /** Only the row at `i` occurs exactly once, so it alone survives. */
  lemma {:induction false} SurvivorsSingle(s: seq<Row>, all: multiset<Row>, i: nat)
    requires i < |s| && all[s[i]] == 1
    requires forall j :: 0 <= j < |s| && j != i ==> all[s[j]] != 1
    ensures Survivors(s, all) == [s[i]]
  {
    var tail := s[1..];
    if i == 0 {
      SurvivorsNone(tail, all);
    } else {
      forall j | 0 <= j < |tail| && j != i - 1 ensures all[tail[j]] != 1 {
        assert tail[j] == s[j + 1];
      }
      assert tail[i - 1] == s[i];
      SurvivorsSingle(tail, all, i - 1);
    }
  }

  /** Rows over exactly the projected columns project to themselves. */
  lemma ProjectFullRows(rows: seq<Row>, cols: set<string>)
    requires RowsOver(rows, cols)
    ensures ProjectRows(rows, cols) == rows
  {
    forall j | 0 <= j < |rows| ensures Project(rows[j], cols) == rows[j] {
    }
  }

  /** The setting of a single changed cell: keys unique, the cell outside the keys and really changed. */
  predicate SingleChange(previous: Table, keys: seq<string>, i: nat, c: string, v: Cell) {
    && WellFormed(previous) && previous.index == []
    && keys != [] && Distinct(keys) && (forall k :: k in keys ==> k in previous.columns)
    && i < |previous.rows| && c in previous.columns && c !in keys
    && Distinct(KeysOf(previous.rows, keys))
    && previous.rows[i][c] != v
  }

  /** The changed row keeps its key and differs from its old version; every other row is untouched. */
  lemma SingleChangeRows(previous: Table, keys: seq<string>, i: nat, c: string, v: Cell)
    requires SingleChange(previous, keys, i, c, v)
    ensures WellFormed(WithCell(previous, i, c, v))
    ensures KeyOf(WithCell(previous, i, c, v).rows[i], keys) == KeyOf(previous.rows[i], keys)
    ensures WithCell(previous, i, c, v).rows[i] != previous.rows[i]
  {
    var cur := WithCell(previous, i, c, v);
    assert cur.rows[i].Keys == previous.rows[i].Keys;
  }

  /** `x` occurs exactly once in `s` when it sits at `i` and nowhere else. */
  lemma CountOne<T>(s: seq<T>, i: nat)
    requires i < |s|
    requires forall j :: 0 <= j < |s| && j != i ==> s[j] != s[i]
    ensures multiset(s)[s[i]] == 1
  {
    RemoveAt(s, i);
    var rest := s[..i] + s[i + 1..];
    forall j | 0 <= j < |rest| ensures rest[j] != s[i] {
      if j < i { assert rest[j] == s[j]; } else { assert rest[j] == s[j + 1]; }
    }
    assert s[i] !in rest;
  }

  /** In the concatenation of both sides only the two versions of the changed row occur once. */
  lemma SingleChangeCounts(previous: Table, keys: seq<string>, i: nat, c: string, v: Cell)
    requires SingleChange(previous, keys, i, c, v)
    ensures
      var cur, prev := WithCell(previous, i, c, v).rows, previous.rows;
      var all := multiset(cur) + multiset(prev);
      && all[cur[i]] == 1 && all[prev[i]] == 1
      && (forall j :: 0 <= j < |cur| && j != i ==> all[cur[j]] != 1)
      && (forall j :: 0 <= j < |prev| && j != i ==> all[prev[j]] != 1)
  {
    var cur, prev := WithCell(previous, i, c, v).rows, previous.rows;
    SingleChangeRows(previous, keys, i, c, v);
    var ks := KeysOf(prev, keys);
    forall j | 0 <= j < |prev| && j != i
      ensures prev[j] != prev[i] && prev[j] != cur[i] && cur[j] != cur[i]
    {
      assert KeyOf(prev[j], keys) == ks[j] && KeyOf(prev[i], keys) == ks[i];
    }
    CountOne(cur, i);
    CountOne(prev, i);
    assert cur[i] !in prev;
    assert prev[i] !in cur;
    forall j | 0 <= j < |cur| && j != i ensures multiset(cur)[cur[j]] >= 1 && multiset(prev)[cur[j]] >= 1 {
      assert cur[j] == prev[j];
      assert cur[j] in cur && prev[j] in prev;
    }
  }

  /** Tables with the same columns and types have no type change, and every column is compared. */
  lemma SameSchemaComparesAll(current: Table, previous: Table)
    requires SchemaWellFormed(current) && SchemaWellFormed(previous)
    requires current.columns == previous.columns && current.dtypes == previous.dtypes
    ensures Diff(current, previous).typeChanges == map[]
    ensures ComparedColumns(current, previous, IncompatibleColumns(Diff(current, previous).typeChanges)) == current.columns
  {
    var d := Diff(current, previous);
    assert d.typeChanges == map[];
    WithoutNone(current.columns, (Elems(current.columns) - Elems(previous.columns)) + IncompatibleColumns(d.typeChanges));
  }

  /** When no column was added and no type change is incompatible, every current column is compared. */
  lemma CompatibleChangesCompareAll(current: Table, previous: Table)
    requires SchemaWellFormed(current) && SchemaWellFormed(previous)
    requires forall c :: c in current.columns ==> c in previous.columns
    requires IncompatibleColumns(Diff(current, previous).typeChanges) == {}
    ensures ComparedColumns(current, previous, IncompatibleColumns(Diff(current, previous).typeChanges)) == current.columns
  {
    WithoutNone(current.columns, (Elems(current.columns) - Elems(previous.columns)) + {});
  }

  /** After the filter only the two versions of the changed row remain. */
  lemma SingleChangeFiltered(previous: Table, keys: seq<string>, i: nat, c: string, v: Cell)
    requires SingleChange(previous, keys, i, c, v)
    ensures
      var current := WithCell(previous, i, c, v);
      FilteredTables(current, previous, Diff(current, previous)) ==
        (Restricted(current, previous.columns, [current.rows[i]]), Restricted(previous, previous.columns, [previous.rows[i]]))
  {
    var current := WithCell(previous, i, c, v);
    SingleChangeRows(previous, keys, i, c, v);
    SameSchemaComparesAll(current, previous);
    var cols := Elems(previous.columns);
    ProjectFullRows(current.rows, cols);
    ProjectFullRows(previous.rows, cols);
    SingleChangeCounts(previous, keys, i, c, v);
    var all := multiset(current.rows) + multiset(previous.rows);
    SurvivorsSingle(current.rows, all, i);
    SurvivorsSingle(previous.rows, all, i);
  }

  /** Every row of `current` and `previous` survives when no row occurs twice in their concatenation. */
  lemma DistinctRowsSurvive(current: seq<Row>, previous: seq<Row>)
    requires Distinct(current + previous)
    ensures
      var all := multiset(current) + multiset(previous);
      Survivors(current, all) == current && Survivors(previous, all) == previous
  {
    var s := current + previous;
    var all := multiset(current) + multiset(previous);
    assert multiset(s) == all;
    forall j | 0 <= j < |s| ensures all[s[j]] == 1 {
      CountOne(s, j);
    }
    forall j | 0 <= j < |current| ensures all[current[j]] == 1 {
      assert s[j] == current[j];
    }
    forall j | 0 <= j < |previous| ensures all[previous[j]] == 1 {
      assert s[|current| + j] == previous[j];
    }
    SurvivorsAll(current, all);
    SurvivorsAll(previous, all);
  }

  /** With the same schema and no row occurring twice across both tables, the filter keeps every row. */
  lemma DistinctRowsKept(current: Table, previous: Table)
    requires WellFormed(current) && WellFormed(previous)
    requires current.columns == previous.columns && current.dtypes == previous.dtypes
    requires current.index == [] && previous.index == []
    requires Distinct(current.rows + previous.rows)
    ensures FilteredTables(current, previous, Diff(current, previous)) ==
              (Restricted(current, current.columns, current.rows), Restricted(previous, current.columns, previous.rows))
  {
    SameSchemaFiltered(current, previous);
    DistinctRowsSurvive(current.rows, previous.rows);
  }

  /** The value diff reads the current table's dtypes only through the choice
      of compared columns: retyping it without changing that choice leaves the
      value diff as it was. */
  lemma RetypedValueDiff(current: Table, previous: Table, keys: seq<string>, dtypes: map<string, string>)
    requires WellFormed(current) && WellFormed(previous) && WellFormed(current.(dtypes := dtypes))
    requires
      var retyped := current.(dtypes := dtypes);
      ComparedColumns(retyped, previous, IncompatibleColumns(Diff(retyped, previous).typeChanges)) ==
        ComparedColumns(current, previous, IncompatibleColumns(Diff(current, previous).typeChanges))
    ensures
      var retyped := current.(dtypes := dtypes);
      ValueDiffOf(retyped, previous, keys, Diff(retyped, previous)) == ValueDiffOf(current, previous, keys, Diff(current, previous))
  {
    if |current.rows| == |previous.rows| > 0 {
      RetypedFiltered(current, previous, dtypes);
      var (fc, fp) := FilteredTables(current, previous, Diff(current, previous));
      if keys != [] && FirstMissingKey(keys, fc.columns).None? {
        RetypedKeysPresent(current, previous, keys, dtypes);
      } else {
        RetypedKeysAbsent(current, previous, keys, dtypes);
      }
    }
  }

  /** `RetypedValueDiff` when the key columns survive the filter. */
  lemma RetypedKeysPresent(current: Table, previous: Table, keys: seq<string>, dtypes: map<string, string>)
    requires WellFormed(current) && WellFormed(previous) && WellFormed(current.(dtypes := dtypes))
    requires |current.rows| == |previous.rows| > 0
    requires
      var retyped := current.(dtypes := dtypes);
      var (fc, fp) := FilteredTables(current, previous, Diff(current, previous));
      var (gc, gp) := FilteredTables(retyped, previous, Diff(retyped, previous));
      && gc == fc.(dtypes := gc.dtypes) && gp == fp
      && keys != [] && FirstMissingKey(keys, fc.columns).None?
    ensures
      var retyped := current.(dtypes := dtypes);
      ValueDiffOf(retyped, previous, keys, Diff(retyped, previous)) == ValueDiffOf(current, previous, keys, Diff(current, previous))
  {
    var retyped := current.(dtypes := dtypes);
    var (fc, fp) := FilteredTables(current, previous, Diff(current, previous));
    var (gc, gp) := FilteredTables(retyped, previous, Diff(retyped, previous));
    KeysPresentOutcome(current, previous, keys, Diff(current, previous), fc, fp);
    KeysPresentOutcome(retyped, previous, keys, Diff(retyped, previous), gc, gp);
    KeyedChangesIgnoresDtypes(fc, fp, keys, |current.rows|, gc.dtypes);
  }

  /** `RetypedValueDiff` when there are no keys or a key column is missing after the filter. */
  lemma RetypedKeysAbsent(current: Table, previous: Table, keys: seq<string>, dtypes: map<string, string>)
    requires WellFormed(current) && WellFormed(previous) && WellFormed(current.(dtypes := dtypes))
    requires |current.rows| == |previous.rows| > 0
    requires
      var retyped := current.(dtypes := dtypes);
      var (fc, fp) := FilteredTables(current, previous, Diff(current, previous));
      var (gc, gp) := FilteredTables(retyped, previous, Diff(retyped, previous));
      && gc == fc.(dtypes := gc.dtypes) && gp == fp
      && (keys == [] || FirstMissingKey(keys, fc.columns).Some?)
    ensures
      var retyped := current.(dtypes := dtypes);
      ValueDiffOf(retyped, previous, keys, Diff(retyped, previous)) == ValueDiffOf(current, previous, keys, Diff(current, previous))
  {
    var retyped := current.(dtypes := dtypes);
    var (fc, fp) := FilteredTables(current, previous, Diff(current, previous));
    var (gc, gp) := FilteredTables(retyped, previous, Diff(retyped, previous));
    KeysAbsentOutcome(current, previous, keys, Diff(current, previous), fc, fp);
    KeysAbsentOutcome(retyped, previous, keys, Diff(retyped, previous), gc, gp);
  }

  /** Retyping the current table without changing the compared columns changes
      only the dtypes of the filtered current table. */
  lemma RetypedFiltered(current: Table, previous: Table, dtypes: map<string, string>)
    requires SchemaWellFormed(current) && SchemaWellFormed(previous) && SchemaWellFormed(current.(dtypes := dtypes))
    requires
      var retyped := current.(dtypes := dtypes);
      ComparedColumns(retyped, previous, IncompatibleColumns(Diff(retyped, previous).typeChanges)) ==
        ComparedColumns(current, previous, IncompatibleColumns(Diff(current, previous).typeChanges))
    ensures
      var retyped := current.(dtypes := dtypes);
      var (fc, fp) := FilteredTables(current, previous, Diff(current, previous));
      var (gc, gp) := FilteredTables(retyped, previous, Diff(retyped, previous));
      gc == fc.(dtypes := gc.dtypes) && gp == fp
  {
  }

  /** The change map reads neither table's dtypes. */
  lemma KeyedChangesIgnoresDtypes(fc: Table, fp: Table, keys: seq<string>, base: nat, dtypes: map<string, string>)
    requires RowsOver(fc.rows, Elems(fc.columns)) && RowsOver(fp.rows, Elems(fc.columns))
    requires forall k :: k in keys ==> k in fc.columns
    requires base > 0
    ensures KeyedChanges(fc.(dtypes := dtypes), fp, keys, base) == KeyedChanges(fc, fp, keys, base)
  {
  }

  /** With the same schema, the filter compares whole rows: each side keeps
      exactly its rows that occur once among the rows of both tables. */
  lemma SameSchemaFiltered(current: Table, previous: Table)
    requires WellFormed(current) && WellFormed(previous)
    requires current.columns == previous.columns && current.dtypes == previous.dtypes
    requires current.index == [] && previous.index == []
    ensures
      var all := multiset(current.rows) + multiset(previous.rows);
      FilteredTables(current, previous, Diff(current, previous)) ==
        (Restricted(current, current.columns, Survivors(current.rows, all)),
         Restricted(previous, current.columns, Survivors(previous.rows, all)))
  {
    SameSchemaComparesAll(current, previous);
    var cols := Elems(previous.columns);
    assert Elems(previous.index) == {};
    ProjectFullRows(current.rows, cols);
    ProjectFullRows(previous.rows, cols);
  }

  /** The change map holds only `c` when `c` is the only column with a changed cell, and it has one. */
  lemma ChangesOverOnly(current: seq<Row>, previous: seq<Row>, keys: seq<string>, cols: seq<string>, merged: bool, base: nat, c: string)
    requires forall d :: d in cols ==> HasColumn(current, d) && HasColumn(previous, d)
    requires HasKeys(current, keys) && HasKeys(previous, keys)
    requires !merged ==> |current| == |previous|
    requires base > 0
    requires c in cols && ColumnCount(current, previous, keys, c, merged) == 1
    requires forall d :: d in cols && d != c ==> ColumnCount(current, previous, keys, d, merged) == 0
    ensures ChangesOver(current, previous, keys, cols, merged, base) == map[c := ColumnChange(1, Percentage(1, base))]
  {
  }

  /** Two one-row sides differ in column `d` once or not at all. */
  lemma SingleRowMismatch(a: Row, b: Row, d: string)
    requires d in a && d in b
    ensures NullSafeMismatches([a], [b], d) == if a[d] == b[d] then 0 else 1
  {
    assert [a][1..] == [] && [b][1..] == [];
  }

  /** Two single rows that share their key differ, column by column, only in `c`. */
  lemma SingleRowChanges(fc: Table, fp: Table, keys: seq<string>, c: string, base: nat)
    requires |fc.rows| == 1 && |fp.rows| == 1
    requires RowsOver(fc.rows, Elems(fc.columns)) && RowsOver(fp.rows, Elems(fc.columns))
    requires forall k :: k in keys ==> k in fc.columns
    requires c in fc.columns && c !in keys
    requires fc.rows[0][c] != fp.rows[0][c]
    requires forall d :: d in fc.columns && d != c ==> fc.rows[0][d] == fp.rows[0][d]
    requires base > 0
    ensures KeyedChanges(fc, fp, keys, base) == map[c := ColumnChange(1, Percentage(1, base))]
  {
    var nonKey := NonKeyColumns(fc.columns, keys);
    assert c in nonKey;
    assert KeysOf(fc.rows, keys) == KeysOf(fp.rows, keys) by {
      assert KeyOf(fc.rows[0], keys) == KeyOf(fp.rows[0], keys);
    }
    forall d | d in nonKey
      ensures ColumnCount(fc.rows, fp.rows, keys, d, false) == if d == c then 1 else 0
    {
      SingleRowMismatch(fc.rows[0], fp.rows[0], d);
      assert [fc.rows[0]] == fc.rows && [fp.rows[0]] == fp.rows;
    }
    ChangesOverOnly(fc.rows, fp.rows, keys, nonKey, false, base, c);
  }

  /** With all keys present after the filter, the value diff is the keyed change map over the filtered tables. */
  lemma KeyedValueDiff(current: Table, previous: Table, keys: seq<string>, sd: SchemaDiff, fc: Table, fp: Table)
    requires WellFormed(current) && WellFormed(previous)
    requires |current.rows| == |previous.rows| > 0
    requires FilteredTables(current, previous, sd) == (fc, fp)
    requires keys != [] && forall k :: k in keys ==> k in fc.columns
    requires RowsOver(fc.rows, Elems(fc.columns)) && RowsOver(fp.rows, Elems(fc.columns))
    ensures
      var n := |current.rows|;
      ValueDiffOf(current, previous, keys, sd) ==
        Ok(ValueDiff(RowCountChange(n, n, Some(0)), Some(Percentage(|fc.rows|, n)), Some(KeyedChanges(fc, fp, keys, n))))
  {
  }

  /** The change map of the two surviving versions of the changed row. */
  lemma SingleChangeKeyed(previous: Table, keys: seq<string>, i: nat, c: string, v: Cell)
    requires SingleChange(previous, keys, i, c, v)
    ensures
      var current := WithCell(previous, i, c, v);
      var fc := Restricted(current, previous.columns, [current.rows[i]]);
      var fp := Restricted(previous, previous.columns, [previous.rows[i]]);
      && RowsOver(fc.rows, Elems(fc.columns)) && RowsOver(fp.rows, Elems(fc.columns))
      && KeyedChanges(fc, fp, keys, |previous.rows|) == map[c := ColumnChange(1, Percentage(1, |previous.rows|))]
  {
    var current := WithCell(previous, i, c, v);
    SingleChangeRows(previous, keys, i, c, v);
    var fc, fp := Restricted(current, previous.columns, [current.rows[i]]), Restricted(previous, previous.columns, [previous.rows[i]]);
    SingleRowChanges(fc, fp, keys, c, |previous.rows|);
  }

  /** One changed cell outside the key columns, under unique keys, is reported
      as exactly one changed row in exactly that column, and as one surviving row. */
  lemma OneChangedCellReported(previous: Table, keys: seq<string>, i: nat, c: string, v: Cell)
    requires SingleChange(previous, keys, i, c, v)
    ensures
      var current := WithCell(previous, i, c, v);
      var n := |previous.rows|;
      ValueDiffOf(current, previous, keys, Diff(current, previous)) ==
        Ok(ValueDiff(RowCountChange(n, n, Some(0)), Some(Percentage(1, n)), Some(map[c := ColumnChange(1, Percentage(1, n))])))
  {
    var current := WithCell(previous, i, c, v);
    SingleChangeRows(previous, keys, i, c, v);
    SingleChangeFiltered(previous, keys, i, c, v);
    SingleChangeKeyed(previous, keys, i, c, v);
    var fc, fp := Restricted(current, previous.columns, [current.rows[i]]), Restricted(previous, previous.columns, [previous.rows[i]]);
    KeyedValueDiff(current, previous, keys, Diff(current, previous), fc, fp);
  }
}
