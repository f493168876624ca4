/** The behaviours the repository's own test suite checks, and a few the
    classifier's substring tests imply, stated on concrete tables. */
module Scenarios {
  import opened Tables
  import opened TypeCompat
  import opened Schema
  import opened Report
  import opened RowFilter
  import opened Alignment
  import opened DataCompare
  import opened DataCompareProperties

  /** Text without upper-case letters is its own lower-case form. */
  lemma LowerKeeps(s: string)
    requires forall i :: 0 <= i < |s| ==> !('A' <= s[i] <= 'Z')
    ensures Lower(s) == s
  {
  }

  /** A contained text has all its characters in the containing one. */
  lemma {:induction false} ContainsHasChars(s: string, t: string, k: nat)
    requires Contains(s, t) && k < |t|
    ensures t[k] in s
  {
    if s[..|t|] == t {
      assert s[k] == t[k];
    } else {
      ContainsHasChars(s[1..], t, k);
    }
  }

  /** "interval" contains "int", so an interval dtype is value-compared with a float column. */
  lemma IntervalCountsAsNumeric()
    ensures AreTypesCompatible("interval", "float64")
  {
    LowerKeeps("interval");
    LowerKeeps("float64");
    assert "interval"[..3] == "int";
    assert "float64"[..5] == "float";
  }

  /** Integer and float columns are compared, whatever the case of the dtype text. */
  lemma IntegerAndFloatCompatible()
    ensures AreTypesCompatible("Int64", "float64")
  {
    assert Lower("Int64") == "int64";
    LowerKeeps("float64");
    assert "int64"[..3] == "int";
    assert "float64"[..5] == "float";
  }

  lemma ObjectNotNumeric()
    ensures !IsNumeric("object")
  {
    var text := "object";
    if Contains(text, "int") { ContainsHasChars(text, "int", 0); }
    if Contains(text, "uint") { ContainsHasChars(text, "uint", 0); }
    if Contains(text, "float") { ContainsHasChars(text, "float", 0); }
    if Contains(text, "bool") { ContainsHasChars(text, "bool", 3); }
  }

  lemma Int64NotStringNorDatetime()
    ensures !IsString("int64") && !IsDatetime("int64")
  {
    var numeric := "int64";
    if Contains(numeric, "str") { ContainsHasChars(numeric, "str", 0); }
  }

  /** An integer column that became `object` is excluded from value comparison. */
  lemma IntegerToObjectIncompatible()
    ensures !AreTypesCompatible("int64", "object")
  {
    LowerKeeps("int64");
    LowerKeeps("object");
    ObjectNotNumeric();
    Int64NotStringNorDatetime();
  }

  /** Two rows with keys 1 and 2 and the given cells in column "val". */
  function IdVal(x: Cell, y: Cell): Table {
    Table(["id", "val"], [], map["id" := "int64", "val" := "int64"],
          [map["id" := Value(1), "val" := x], map["id" := Value(2), "val" := y]])
  }

  function IdValPrevious(): Table {
    IdVal(Value(10), Value(20))
  }

  /** Changing the "val" cell of the first row of `IdVal(x, y)` to anything but `x` is a single change. */
  lemma IdValSingleChange(x: Cell, y: Cell, v: Cell)
    requires v != x
    ensures SingleChange(IdVal(x, y), ["id"], 0, "val", v)
  {
    var t := IdVal(x, y);
    assert Elems(t.columns) == {"id", "val"};
    assert KeyOf(t.rows[0], ["id"]) == [Value(1)] && KeyOf(t.rows[1], ["id"]) == [Value(2)];
  }

  /** One changed value under a primary key is one changed row out of two: 50%. */
  lemma ValueChangeWithPrimaryKey()
    ensures
      var previous := IdValPrevious();
      var current := WithCell(previous, 0, "val", Value(11));
      ValueDiffOf(current, previous, ["id"], Diff(current, previous)) ==
        Ok(ValueDiff(RowCountChange(2, 2, Some(0)), Some(50.0), Some(map["val" := ColumnChange(1, 50.0)])))
  {
    IdValSingleChange(Value(10), Value(20), Value(11));
    OneChangedCellReported(IdValPrevious(), ["id"], 0, "val", Value(11));
  }

  /** A missing value replaced by a value is a change. */
  lemma MissingReplacedIsChange()
    ensures
      var previous := IdVal(Missing, Value(2));
      var current := WithCell(previous, 0, "val", Value(0));
      ValueDiffOf(current, previous, ["id"], Diff(current, previous)) ==
        Ok(ValueDiff(RowCountChange(2, 2, Some(0)), Some(50.0), Some(map["val" := ColumnChange(1, 50.0)])))
  {
    IdValSingleChange(Missing, Value(2), Value(0));
    OneChangedCellReported(IdVal(Missing, Value(2)), ["id"], 0, "val", Value(0));
  }

  /** "int64" and "float64" are compatible. */
  lemma Int64FloatCompatible()
    ensures AreTypesCompatible("int64", "float64")
  {
    LowerKeeps("int64");
    LowerKeeps("float64");
    assert "int64"[..3] == "int";
    assert "float64"[..5] == "float";
  }

  /** `IdValPrevious` with the "val" cell of key 1 changed and column "val" now
      of dtype "float64". The changed cell stands for any value other than 10
      (10.5 in the repository's test); cells are not typed in this model. */
  function IntToFloatCurrent(): Table {
    WithCell(IdValPrevious(), 0, "val", Value(11)).(dtypes := map["id" := "int64", "val" := "float64"])
  }

  lemma IntToFloatWellFormed()
    ensures WellFormed(IntToFloatCurrent()) && WellFormed(IdValPrevious())
  {
    IdValSingleChange(Value(10), Value(20), Value(11));
    SingleChangeRows(IdValPrevious(), ["id"], 0, "val", Value(11));
  }

  /** The int64 to float64 change of "val" is the only recorded type change. */
  lemma IntToFloatTypeChanges()
    requires WellFormed(IntToFloatCurrent()) && WellFormed(IdValPrevious())
    ensures Diff(IntToFloatCurrent(), IdValPrevious()).typeChanges == map["val" := TypeChange("int64", "float64")]
  {
    var current, previous := IntToFloatCurrent(), IdValPrevious();
    assert CommonColumns(current, previous) == {"id", "val"};
    assert Diff(current, previous).typeChanges.Keys == {"val"};
  }

  /** Being compatible, the type change keeps "val" among the compared columns. */
  lemma IntToFloatCompared()
    requires WellFormed(IntToFloatCurrent()) && WellFormed(IdValPrevious())
    ensures ComparedColumns(IntToFloatCurrent(), IdValPrevious(),
                            IncompatibleColumns(Diff(IntToFloatCurrent(), IdValPrevious()).typeChanges)) == ["id", "val"]
  {
    var current, previous := IntToFloatCurrent(), IdValPrevious();
    IntToFloatTypeChanges();
    Int64FloatCompatible();
    CompatibleChangeNotExcluded("val", TypeChange("int64", "float64"));
    CompatibleChangesCompareAll(current, previous);
  }

  /** A single compatible type change excludes no column. */
  lemma CompatibleChangeNotExcluded(c: string, t: TypeChange)
    requires AreTypesCompatible(t.previous, t.current)
    ensures IncompatibleColumns(map[c := t]) == {}
  {
  }

  /** int64 against float64 is a compatible type change: the column is still
      compared by value, and its changed row is reported. */
  lemma IntToFloatChangeReported()
    ensures WellFormed(IntToFloatCurrent()) && WellFormed(IdValPrevious())
    ensures Diff(IntToFloatCurrent(), IdValPrevious()).typeChanges == map["val" := TypeChange("int64", "float64")]
    ensures ValueDiffOf(IntToFloatCurrent(), IdValPrevious(), ["id"], Diff(IntToFloatCurrent(), IdValPrevious())) ==
              Ok(ValueDiff(RowCountChange(2, 2, Some(0)), Some(50.0), Some(map["val" := ColumnChange(1, 50.0)])))
  {
    var previous := IdValPrevious();
    var sameTypes := WithCell(previous, 0, "val", Value(11));
    IdValSingleChange(Value(10), Value(20), Value(11));
    SingleChangeRows(previous, ["id"], 0, "val", Value(11));
    SameSchemaComparesAll(sameTypes, previous);
    IntToFloatWellFormed();
    IntToFloatTypeChanges();
    IntToFloatCompared();
    ValueChangeWithPrimaryKey();
    RetypedValueDiff(sameTypes, previous, ["id"], map["id" := "int64", "val" := "float64"]);
  }

  function OneRowPrevious(): Table {
    Table(["id", "a"], [], map["id" := "int64", "a" := "int64"], [map["id" := Value(1), "a" := Value(10)]])
  }

  function OneRowCurrent(): Table {
    OneRowPrevious().(rows := [map["id" := Value(1), "a" := Value(11)]])
  }

  lemma OneRowWellFormed()
    ensures WellFormed(OneRowCurrent()) && WellFormed(OneRowPrevious())
  {
    assert Elems(OneRowPrevious().columns) == {"id", "a"};
  }

  /** A primary key that is not a column raises before any value diff. */
  lemma MissingPrimaryKeyRaises()
    ensures WellFormed(OneRowCurrent()) && WellFormed(OneRowPrevious())
    ensures ValueDiffOf(OneRowCurrent(), OneRowPrevious(), ["not_a_column"], Diff(OneRowCurrent(), OneRowPrevious())) == KeyError("not_a_column")
    ensures StatisticsOutcome(OneRowCurrent(), OneRowPrevious(), ["not_a_column"]).KeyError?
  {
    var current, previous := OneRowCurrent(), OneRowPrevious();
    OneRowWellFormed();
    var sd := Diff(current, previous);
    SameSchemaComparesAll(current, previous);
    var (fc, fp) := FilteredTables(current, previous, sd);
    assert fc.columns == ["id", "a"];
    assert FirstMissingKey(["not_a_column"], fc.columns) == Some("not_a_column");
    KeysAbsentOutcome(current, previous, ["not_a_column"], sd, fc, fp);
  }

  /** Fewer current rows: only the row counts are reported, and the drop is a regression. */
  lemma RowCountDecreaseFlagsRegression()
    ensures
      var previous := IdValPrevious();
      var current := previous.(rows := previous.rows[..1]);
      && ValueDiffOf(current, previous, ["id"], Diff(current, previous)) == Ok(ValueDiff(RowCountChange(2, 1, Some(-1)), None, None))
      && StatisticsOutcome(current, previous, ["id"]).Ok?
      && StatisticsOutcome(current, previous, ["id"]).value.potentialRegression
  {
  }

  function Row2(id: int, val: int): Row {
    map["id" := Value(id), "val" := Value(val)]
  }

  function DupPrevious(): Table {
    IdValPrevious().(rows := [Row2(1, 10), Row2(1, 10)])
  }

  function DupCurrent(): Table {
    IdValPrevious().(rows := [Row2(1, 10), Row2(1, 20)])
  }

  /** Of the duplicate-key tables only the current row (1, 20) survives the filter. */
  lemma DuplicateKeysFiltered()
    requires WellFormed(DupCurrent()) && WellFormed(DupPrevious())
    ensures FilteredTables(DupCurrent(), DupPrevious(), Diff(DupCurrent(), DupPrevious())) ==
              (Restricted(DupCurrent(), ["id", "val"], [Row2(1, 20)]), Restricted(DupPrevious(), ["id", "val"], []))
  {
    SameSchemaFiltered(DupCurrent(), DupPrevious());
    DuplicateKeysSurvivors();
  }

  lemma DuplicateKeysSurvivors()
    ensures
      var all := multiset(DupCurrent().rows) + multiset(DupPrevious().rows);
      Survivors(DupCurrent().rows, all) == [Row2(1, 20)] && Survivors(DupPrevious().rows, all) == []
  {
    assert Row2(1, 10) != Row2(1, 20) by { assert Row2(1, 10)["val"] != Row2(1, 20)["val"]; }
    var all := multiset(DupCurrent().rows) + multiset(DupPrevious().rows);
    assert all == multiset{Row2(1, 10), Row2(1, 10), Row2(1, 10), Row2(1, 20)};
    SurvivorsSingle(DupCurrent().rows, all, 1);
    SurvivorsNone(DupPrevious().rows, all);
  }

  /** Duplicate keys: the current row (1, 20) survives, but its only partners
      (1, 10) occur three times in all and are filtered out, so the fallback
      finds no pair and no change is reported, while half the rows count as changed. */
  lemma DuplicatePrimaryKeys()
    ensures
      ValueDiffOf(DupCurrent(), DupPrevious(), ["id"], Diff(DupCurrent(), DupPrevious())) ==
        Ok(ValueDiff(RowCountChange(2, 2, Some(0)), Some(50.0), Some(map[])))
  {
    DuplicateKeysOutcome();
    assert Percentage(1, 2) == 50.0;
  }

  /** The value diff of the duplicate-key tables, with the surviving row counted in the percentage. */
  lemma DuplicateKeysOutcome()
    ensures WellFormed(DupCurrent()) && WellFormed(DupPrevious())
    ensures
      ValueDiffOf(DupCurrent(), DupPrevious(), ["id"], Diff(DupCurrent(), DupPrevious())) ==
        Ok(ValueDiff(RowCountChange(2, 2, Some(0)), Some(Percentage(1, 2)), Some(map[])))
  {
    var current, previous := DupCurrent(), DupPrevious();
    var fc, fp := DuplicateKeysSetup();
    EmptySideKeysPresent(current, previous, ["id"], Diff(current, previous));
  }

  lemma DuplicateKeysWellFormed()
    ensures WellFormed(DupCurrent()) && WellFormed(DupPrevious())
    ensures |DupCurrent().rows| == |DupPrevious().rows| == 2
  {
  }

  /** The filtered duplicate-key tables, with what the value diff needs of them. */
  lemma DuplicateKeysSetup() returns (fc: Table, fp: Table)
    ensures WellFormed(DupCurrent()) && WellFormed(DupPrevious())
    ensures |DupCurrent().rows| == |DupPrevious().rows| == 2
    ensures FilteredTables(DupCurrent(), DupPrevious(), Diff(DupCurrent(), DupPrevious())) == (fc, fp)
    ensures forall k :: k in ["id"] ==> k in fc.columns
    ensures |fc.rows| == 1 && fp.rows == []
  {
    fc, fp := Restricted(DupCurrent(), ["id", "val"], [Row2(1, 20)]), Restricted(DupPrevious(), ["id", "val"], []);
    DuplicateKeysWellFormed();
    DuplicateKeysFiltered();
  }

  function SpreadPrevious(): Table {
    IdValPrevious().(rows := [Row2(1, 10), Row2(1, 40), Row2(2, 5)])
  }

  function SpreadCurrent(): Table {
    IdValPrevious().(rows := [Row2(1, 20), Row2(1, 30), Row2(3, 5)])
  }

  /** The cells of `Row2(id, val)` and its key under ["id"]. */
  lemma Row2Cells(id: int, val: int)
    ensures "id" in Row2(id, val) && "val" in Row2(id, val) && Row2(id, val)["val"] == Value(val)
    ensures KeyOf(Row2(id, val), ["id"]) == [Value(id)]
  {
  }

  /** Whether the pair (p, r) shares its key and differs in `c`. */
  function PairHit(p: Row, r: Row, keys: seq<string>, c: string): nat
    requires c in p && c in r && (forall k :: k in keys ==> k in p && k in r)
  {
    if KeyOf(r, keys) == KeyOf(p, keys) && !NullSafeEq(p[c], r[c]) then 1 else 0
  }

  /** The pair count over previous rows is the first row's key-match count plus the rest's. */
  lemma PairMismatchesStep(previous: seq<Row>, current: seq<Row>, keys: seq<string>, c: string)
    requires previous != []
    requires HasColumn(previous, c) && HasKeys(previous, keys)
    requires HasColumn(current, c) && HasKeys(current, keys)
    ensures HasColumn(previous[1..], c) && HasKeys(previous[1..], keys)
    ensures PairMismatches(previous, current, keys, c) ==
              KeyMatchMismatches(previous[0], current, keys, c) + PairMismatches(previous[1..], current, keys, c)
  {
  }

  /** The key-match count over current rows is the first pair's hit plus the rest's count. */
  lemma KeyMatchStep(p: Row, current: seq<Row>, keys: seq<string>, c: string)
    requires current != []
    requires c in p && (forall k :: k in keys ==> k in p)
    requires HasColumn(current, c) && HasKeys(current, keys)
    ensures HasColumn(current[1..], c) && HasKeys(current[1..], keys)
    ensures KeyMatchMismatches(p, current, keys, c) == PairHit(p, current[0], keys, c) + KeyMatchMismatches(p, current[1..], keys, c)
  {
  }

  /** The pair count over three previous rows, row by row. */
  lemma PairMismatchesThree(previous: seq<Row>, current: seq<Row>, keys: seq<string>, c: string)
    requires |previous| == 3
    requires HasColumn(previous, c) && HasKeys(previous, keys)
    requires HasColumn(current, c) && HasKeys(current, keys)
    ensures PairMismatches(previous, current, keys, c) ==
              KeyMatchMismatches(previous[0], current, keys, c) + KeyMatchMismatches(previous[1], current, keys, c)
              + KeyMatchMismatches(previous[2], current, keys, c)
  {
    PairMismatchesStep(previous, current, keys, c);
    PairMismatchesStep(previous[1..], current, keys, c);
    PairMismatchesStep(previous[1..][1..], current, keys, c);
    assert previous[1..][0] == previous[1] && previous[1..][1..][0] == previous[2] && previous[1..][1..][1..] == [];
  }

  /** The key-match count of `p` against three current rows, pair by pair. */
  lemma KeyMatchThree(p: Row, current: seq<Row>, keys: seq<string>, c: string)
    requires |current| == 3
    requires c in p && (forall k :: k in keys ==> k in p)
    requires HasColumn(current, c) && HasKeys(current, keys)
    ensures KeyMatchMismatches(p, current, keys, c) ==
              PairHit(p, current[0], keys, c) + PairHit(p, current[1], keys, c) + PairHit(p, current[2], keys, c)
  {
    KeyMatchStep(p, current, keys, c);
    KeyMatchStep(p, current[1..], keys, c);
    KeyMatchStep(p, current[1..][1..], keys, c);
    assert current[1..][0] == current[1] && current[1..][1..][0] == current[2] && current[1..][1..][1..] == [];
  }

  /** A previous row with key 1 and a value other than 20 and 30 differs from both current rows with key 1. */
  lemma SpreadKeyOneMatches(val: int)
    requires val != 20 && val != 30
    ensures KeyMatchMismatches(Row2(1, val), SpreadCurrent().rows, ["id"], "val") == 2
  {
    Row2Cells(1, val); Row2Cells(1, 20); Row2Cells(1, 30); Row2Cells(3, 5);
    KeyMatchThree(Row2(1, val), SpreadCurrent().rows, ["id"], "val");
  }

  /** The previous row with key 2 has no partner among the current rows. */
  lemma SpreadKeyTwoMatches()
    ensures KeyMatchMismatches(Row2(2, 5), SpreadCurrent().rows, ["id"], "val") == 0
  {
    Row2Cells(2, 5); Row2Cells(1, 20); Row2Cells(1, 30); Row2Cells(3, 5);
    KeyMatchThree(Row2(2, 5), SpreadCurrent().rows, ["id"], "val");
  }

  /** The pair count of the spread tables, previous row by previous row. */
  lemma SpreadPairsUnfold()
    ensures
      var cur := SpreadCurrent().rows;
      PairMismatches(SpreadPrevious().rows, cur, ["id"], "val") ==
        KeyMatchMismatches(Row2(1, 10), cur, ["id"], "val") + KeyMatchMismatches(Row2(1, 40), cur, ["id"], "val")
        + KeyMatchMismatches(Row2(2, 5), cur, ["id"], "val")
  {
    Row2Cells(1, 10); Row2Cells(1, 40); Row2Cells(2, 5);
    Row2Cells(1, 20); Row2Cells(1, 30); Row2Cells(3, 5);
    PairMismatchesThree(SpreadPrevious().rows, SpreadCurrent().rows, ["id"], "val");
  }

  /** Each of the two previous rows with key 1 meets both current rows with key 1. */
  lemma SpreadPairs()
    ensures PairMismatches(SpreadPrevious().rows, SpreadCurrent().rows, ["id"], "val") == 4
  {
    SpreadPairsUnfold();
    SpreadKeyOneMatches(10);
    SpreadKeyOneMatches(40);
    SpreadKeyTwoMatches();
  }

  lemma SpreadWellFormed()
    ensures WellFormed(SpreadCurrent()) && WellFormed(SpreadPrevious())
    ensures |SpreadCurrent().rows| == |SpreadPrevious().rows| == 3
  {
  }

  /** No row of the spread tables occurs twice, so all of them survive the filter. */
  lemma SpreadFiltered()
    ensures FilteredTables(SpreadCurrent(), SpreadPrevious(), Diff(SpreadCurrent(), SpreadPrevious())) ==
              (Restricted(SpreadCurrent(), ["id", "val"], SpreadCurrent().rows),
               Restricted(SpreadPrevious(), ["id", "val"], SpreadPrevious().rows))
  {
    SpreadWellFormed();
    SpreadRowsDistinct();
    DistinctRowsKept(SpreadCurrent(), SpreadPrevious());
  }

  lemma Row2Injective(a: int, b: int, c: int, d: int)
    ensures Row2(a, b) == Row2(c, d) ==> a == c && b == d
  {
    if Row2(a, b) == Row2(c, d) {
      assert Row2(a, b)["id"] == Row2(c, d)["id"] && Row2(a, b)["val"] == Row2(c, d)["val"];
    }
  }

  /** The six spread rows are pairwise different. */
  lemma SpreadRowsDistinct()
    ensures Distinct(SpreadCurrent().rows + SpreadPrevious().rows)
  {
    var ids, vals := [1, 1, 3, 1, 1, 2], [20, 30, 5, 10, 40, 5];
    var rows: seq<Row> := seq(6, i requires 0 <= i < 6 => Row2(ids[i], vals[i]));
    assert rows == SpreadCurrent().rows + SpreadPrevious().rows;
    forall i, j | 0 <= i < j < |rows| ensures rows[i] != rows[j] {
      Row2Injective(ids[i], vals[i], ids[j], vals[j]);
    }
  }

  /** The keys are not aligned, so the fallback runs and counts four changed pairs. */
  lemma SpreadChanges()
    ensures
      var fc, fp := Restricted(SpreadCurrent(), ["id", "val"], SpreadCurrent().rows), Restricted(SpreadPrevious(), ["id", "val"], SpreadPrevious().rows);
      && RowsOver(fc.rows, Elems(fc.columns)) && RowsOver(fp.rows, Elems(fc.columns))
      && KeyedChanges(fc, fp, ["id"], 3) == map["val" := ColumnChange(4, Percentage(4, 3))]
  {
    var fc, fp := Restricted(SpreadCurrent(), ["id", "val"], SpreadCurrent().rows), Restricted(SpreadPrevious(), ["id", "val"], SpreadPrevious().rows);
    var cur, prev := SpreadCurrent().rows, SpreadPrevious().rows;
    SpreadRowsOver();
    SpreadNonKey();
    SpreadNotAligned();
    SpreadPairs();
    ChangesOverSingle(cur, prev, ["id"], "val", true, 3);
  }

  lemma SpreadRowsOver()
    ensures Elems(["id", "val"]) == {"id", "val"}
    ensures RowsOver(SpreadCurrent().rows, {"id", "val"}) && RowsOver(SpreadPrevious().rows, {"id", "val"})
  {
  }

  lemma SpreadNonKey()
    ensures NonKeyColumns(["id", "val"], ["id"]) == ["val"]
  {
  }

  /** The third rows carry keys 3 and 2, so the key sequences differ. */
  lemma SpreadNotAligned()
    ensures KeysOf(SpreadCurrent().rows, ["id"]) != KeysOf(SpreadPrevious().rows, ["id"])
  {
    assert KeysOf(SpreadCurrent().rows, ["id"])[2] == KeyOf(Row2(3, 5), ["id"]) == [Value(3)];
    assert KeysOf(SpreadPrevious().rows, ["id"])[2] == KeyOf(Row2(2, 5), ["id"]) == [Value(2)];
  }

  /** A single compared column with a nonzero count makes a one-entry change map. */
  lemma ChangesOverSingle(current: seq<Row>, previous: seq<Row>, keys: seq<string>, c: string, merged: bool, base: nat)
    requires HasColumn(current, c) && HasColumn(previous, c)
    requires HasKeys(current, keys) && HasKeys(previous, keys)
    requires !merged ==> |current| == |previous|
    requires base > 0
    requires ColumnCount(current, previous, keys, c, merged) > 0
    ensures
      var n := ColumnCount(current, previous, keys, c, merged);
      ChangesOver(current, previous, keys, [c], merged, base) == map[c := ColumnChange(n, Percentage(n, base))]
  {
    assert [c][..0] == [];
  }

  /** With keys repeated on both sides and not aligned, the fallback counts
      every pair sharing a key: four changed pairs among three rows, a
      percentage above 100. */
  lemma FallbackCountExceedsRowCount()
    ensures WellFormed(SpreadCurrent()) && WellFormed(SpreadPrevious())
    ensures
      && ValueDiffOf(SpreadCurrent(), SpreadPrevious(), ["id"], Diff(SpreadCurrent(), SpreadPrevious())) ==
           Ok(ValueDiff(RowCountChange(3, 3, Some(0)), Some(100.0), Some(map["val" := ColumnChange(4, Percentage(4, 3))])))
      && Percentage(4, 3) > 100.0
  {
    var fc, fp := Restricted(SpreadCurrent(), ["id", "val"], SpreadCurrent().rows), Restricted(SpreadPrevious(), ["id", "val"], SpreadPrevious().rows);
    SpreadWellFormed();
    SpreadFiltered();
    SpreadChanges();
    KeyedValueDiff(SpreadCurrent(), SpreadPrevious(), ["id"], Diff(SpreadCurrent(), SpreadPrevious()), fc, fp);
  }
}
