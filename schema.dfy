/** The schema diff that both comparators compute the same way: column sets
    compared by exact name, and a type change recorded, with both dtype texts,
    for every common column whose dtype text differs. */
module Schema {
  import opened Tables

  datatype TypeChange = TypeChange(previous: string, current: string)

  datatype SchemaDiff = SchemaDiff(
    addedColumns: set<string>,
    removedColumns: set<string>,
    typeChanges: map<string, TypeChange>,
    totalColumnsCurrent: nat,
    totalColumnsPrevious: nat)

  function CommonColumns(current: Table, previous: Table): set<string> {
    Elems(current.columns) * Elems(previous.columns)
  }

  /** The type changes among the columns of `cols`. */
  function TypeChangesAmong(current: Table, previous: Table, cols: set<string>): (m: map<string, TypeChange>)
    requires SchemaWellFormed(current) && SchemaWellFormed(previous)
    requires cols <= CommonColumns(current, previous)
    ensures m.Keys <= cols
    ensures forall c :: c in cols ==> (c in m <==> current.dtypes[c] != previous.dtypes[c])
    ensures forall c :: c in m ==> m[c] == TypeChange(previous.dtypes[c], current.dtypes[c])
  {
    map c | c in cols && current.dtypes[c] != previous.dtypes[c] :: TypeChange(previous.dtypes[c], current.dtypes[c])
  }

  lemma TypeChangesStep(current: Table, previous: Table, done: set<string>, col: string)
    requires SchemaWellFormed(current) && SchemaWellFormed(previous)
    requires done + {col} <= CommonColumns(current, previous)
    ensures TypeChangesAmong(current, previous, done + {col}) ==
              if current.dtypes[col] != previous.dtypes[col]
              then TypeChangesAmong(current, previous, done)[col := TypeChange(previous.dtypes[col], current.dtypes[col])]
              else TypeChangesAmong(current, previous, done)
  {
  }

  /** The schema diff of `current` against `previous`. */
  function Diff(current: Table, previous: Table): (d: SchemaDiff)
    requires SchemaWellFormed(current) && SchemaWellFormed(previous)
    ensures d.addedColumns + CommonColumns(current, previous) == Elems(current.columns)
    ensures d.removedColumns + CommonColumns(current, previous) == Elems(previous.columns)
    ensures d.addedColumns !! d.removedColumns
    ensures d.addedColumns !! CommonColumns(current, previous)
    ensures d.removedColumns !! CommonColumns(current, previous)
    ensures d.typeChanges.Keys <= CommonColumns(current, previous)
    ensures forall c :: c in CommonColumns(current, previous) ==>
              (c in d.typeChanges <==> current.dtypes[c] != previous.dtypes[c])
    ensures forall c :: c in d.typeChanges ==>
              d.typeChanges[c] == TypeChange(previous.dtypes[c], current.dtypes[c])
  {
    var cur, prev := Elems(current.columns), Elems(previous.columns);
    SchemaDiff(cur - prev, prev - cur, TypeChangesAmong(current, previous, CommonColumns(current, previous)),
               |current.columns|, |previous.columns|)
  }

  /** `compare_schema`: the type changes are collected by a loop over the common columns. */
  method CompareSchema(current: Table, previous: Table) returns (d: SchemaDiff)
    requires SchemaWellFormed(current) && SchemaWellFormed(previous)
    ensures d == Diff(current, previous)
  {
    var currentCols, previousCols := Elems(current.columns), Elems(previous.columns);
    var added, removed := currentCols - previousCols, previousCols - currentCols;
    var common := currentCols * previousCols;
    var typeChanges: map<string, TypeChange> := map[];
    var todo := common;
    while todo != {}
      invariant todo <= common
      invariant typeChanges == TypeChangesAmong(current, previous, common - todo)
      decreases |todo|
    {
      var col :| col in todo;
      TypeChangesStep(current, previous, common - todo, col);
      var currType, prevType := current.dtypes[col], previous.dtypes[col];
      if currType != prevType {
        typeChanges := typeChanges[col := TypeChange(prevType, currType)];
      }
      assert common - (todo - {col}) == (common - todo) + {col};
      todo := todo - {col};
    }
    assert common - todo == CommonColumns(current, previous);
    d := SchemaDiff(added, removed, typeChanges, |current.columns|, |previous.columns|);
  }

  /** The column totals count each table's distinct column names. */
  lemma TotalsCountColumnNames(current: Table, previous: Table)
    requires SchemaWellFormed(current) && SchemaWellFormed(previous)
    ensures Diff(current, previous).totalColumnsCurrent == |Elems(current.columns)|
    ensures Diff(current, previous).totalColumnsPrevious == |Elems(previous.columns)|
  {
    DistinctCardinality(current.columns);
    DistinctCardinality(previous.columns);
  }

  /** Reordering the columns of a table changes nothing in the schema diff:
      no added or removed columns, and type changes only where dtypes differ. */
  lemma ReorderedColumnsNoChange(current: Table, previous: Table)
    requires SchemaWellFormed(current) && SchemaWellFormed(previous)
    requires multiset(current.columns) == multiset(previous.columns)
    requires forall c :: c in current.columns && c in previous.columns ==> current.dtypes[c] == previous.dtypes[c]
    ensures Diff(current, previous).addedColumns == {}
    ensures Diff(current, previous).removedColumns == {}
    ensures Diff(current, previous).typeChanges == map[]
    ensures Diff(current, previous).totalColumnsCurrent == Diff(current, previous).totalColumnsPrevious
  {
    assert |current.columns| == |multiset(current.columns)|;
    assert forall c :: c in current.columns <==> c in multiset(current.columns);
    assert forall c :: c in previous.columns <==> c in multiset(previous.columns);
    assert Elems(current.columns) == Elems(previous.columns);
  }
}
