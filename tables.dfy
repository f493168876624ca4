/** In-memory tables as the comparators see them: named columns, a declared
    type descriptor per column, and rows of cells that are a value or missing. */
module Tables {

  /** A cell: an equality-comparable value, or pandas' missing marker (NaN, None, NaT). */
  datatype Cell = Missing | Value(v: int)

  /** A row maps every column name (and every index level) to its cell. */
  type Row = map<string, Cell>

  /** A table. `columns` is the ordered column list; `index` lists the index
      levels that `set_index` moved out of `columns` ([] when no column backs
      the index; plain row labels are not represented); `dtypes` holds the
      text of each column's dtype. */
  datatype Table = Table(columns: seq<string>, index: seq<string>, dtypes: map<string, string>, rows: seq<Row>)

  /** The outcome of an operation that may raise `KeyError` for a column name. */
  datatype Outcome<T> = Ok(value: T) | KeyError(column: string)

  datatype Option<T> = None | Some(value: T) {
    function GetOr(default: T): T {
      match this
      case Some(v) => v
      case None => default
    }
  }

  predicate Distinct<T(==)>(s: seq<T>) {
    forall i, j :: 0 <= i < j < |s| ==> s[i] != s[j]
  }

  function Elems<T>(s: seq<T>): set<T> {
    set x | x in s
  }

  /** What every pandas frame the comparators handle satisfies: column names are
      unique, every column has a dtype, and every row has exactly one cell per
      column and per index level. */
  predicate WellFormed(t: Table) {
    SchemaWellFormed(t) && RowsWellFormed(t)
  }

  /** Column names are unique, disjoint from the index levels, and each has a dtype. */
  predicate SchemaWellFormed(t: Table) {
    && Distinct(t.columns)
    && (forall c :: c in t.index ==> c !in t.columns)
    && (forall c :: c in t.columns ==> c in t.dtypes)
  }

  /** Every row has exactly one cell per column and per index level. */
  predicate RowsWellFormed(t: Table) {
    forall i :: 0 <= i < |t.rows| ==> t.rows[i].Keys == Elems(t.columns) + Elems(t.index)
  }

  /** A distinct sequence has as many elements as its set of elements. */
  lemma {:induction false} DistinctCardinality<T>(s: seq<T>)
    requires Distinct(s)
    ensures |Elems(s)| == |s|
  {
    if s != [] {
      DistinctCardinality(s[1..]);
      assert Elems(s) == {s[0]} + Elems(s[1..]);
      assert s[0] !in Elems(s[1..]) by {
        forall j | 0 <= j < |s[1..]| ensures s[1..][j] != s[0] {
          assert s[1..][j] == s[j + 1];
        }
      }
    }
  }

  /** An element at two positions occurs at least twice. */
  lemma TwoOccurrences<T>(s: seq<T>, i: nat, j: nat)
    requires i < j < |s| && s[i] == s[j]
    ensures multiset(s)[s[i]] >= 2
  {
    assert s == s[..j] + s[j..];
    assert s[i] == s[..j][i];
    assert s[j] == s[j..][0];
    assert multiset(s) == multiset(s[..j]) + multiset(s[j..]);
  }

  /** pandas `==` between two cells: a missing cell equals nothing, not even another missing cell. */
  predicate CellEq(a: Cell, b: Cell)
    ensures CellEq(a, b) <==> a == b && a != Missing
  {
    a.Value? && b.Value? && a.v == b.v
  }

  /** The null-safe equality of the comparator, `(a == b) | (isna(a) & isna(b))`:
      it coincides with identity of cells. */
  function NullSafeEq(a: Cell, b: Cell): (r: bool)
    ensures r <==> a == b
  {
    CellEq(a, b) || (a.Missing? && b.Missing?)
  }

  /** The projection of a row onto a set of columns. */
  function Project(r: Row, cols: set<string>): Row {
    map c | c in r.Keys * cols :: r[c]
  }

  /** The key of a row: its cells in the key columns, in key order. */
  function KeyOf(r: Row, keys: seq<string>): seq<Cell>
    requires forall k :: k in keys ==> k in r
  {
    seq(|keys|, j requires 0 <= j < |keys| => r[keys[j]])
  }

  /** The keys of all rows, in row order (the labels `set_index` gives them). */
  function KeysOf(rows: seq<Row>, keys: seq<string>): (ks: seq<seq<Cell>>)
    requires forall i, k :: 0 <= i < |rows| && k in keys ==> k in rows[i]
    ensures |ks| == |rows|
  {
    seq(|rows|, i requires 0 <= i < |rows| => KeyOf(rows[i], keys))
  }

  /** Every row has exactly the cells of `cols`. */
  predicate RowsOver(rows: seq<Row>, cols: set<string>) {
    forall i :: 0 <= i < |rows| ==> rows[i].Keys == cols
  }

  /** The elements of `s` that are not in `drop`, in order. */
  function Without(s: seq<string>, drop: set<string>): (r: seq<string>)
    ensures forall c :: c in r <==> c in s && c !in drop
    ensures |r| <= |s|
    ensures Distinct(s) ==> Distinct(r)
  {
    if s == [] then []
    else (if s[0] in drop then [] else [s[0]]) + Without(s[1..], drop)
  }

  /** `Without` distributes over concatenation. */
  lemma {:induction false} WithoutAppend(a: seq<string>, b: seq<string>, drop: set<string>)
    ensures Without(a + b, drop) == Without(a, drop) + Without(b, drop)
  {
    if a == [] {
      assert a + b == b;
    } else {
      assert (a + b)[1..] == a[1..] + b;
      WithoutAppend(a[1..], b, drop);
    }
  }

  /** Dropping a superset of a sequence's elements leaves nothing. */
  lemma {:induction false} WithoutCovered(s: seq<string>, drop: set<string>)
    requires forall x :: x in s ==> x in drop
    ensures Without(s, drop) == []
  {
    if s != [] {
      WithoutCovered(s[1..], drop);
    }
  }

  /** Dropping the same names twice drops nothing more. */
  lemma {:induction false} WithoutIdempotent(s: seq<string>, drop: set<string>)
    ensures Without(Without(s, drop), drop) == Without(s, drop)
  {
    if s != [] {
      WithoutIdempotent(s[1..], drop);
      var head := if s[0] in drop then [] else [s[0]];
      WithoutAppend(head, Without(s[1..], drop), drop);
    }
  }

  /** Two distinct sequences with no common element concatenate to a distinct sequence. */
  lemma DistinctAppend<T>(a: seq<T>, b: seq<T>)
    requires Distinct(a) && Distinct(b)
    requires forall x :: x in a ==> x !in b
    ensures Distinct(a + b)
  {
    forall i, j | 0 <= i < j < |a + b| ensures (a + b)[i] != (a + b)[j] {
      if j < |a| {
        assert (a + b)[i] == a[i] && (a + b)[j] == a[j];
      } else if i >= |a| {
        assert (a + b)[i] == b[i - |a|] && (a + b)[j] == b[j - |a|];
      } else {
        assert (a + b)[i] == a[i] && (a + b)[j] == b[j - |a|];
        assert a[i] in a && b[j - |a|] in b;
      }
    }
  }

  /** Dropping names a sequence does not hold changes nothing. */
  lemma {:induction false} WithoutNone(s: seq<string>, drop: set<string>)
    requires forall x :: x in s ==> x !in drop
    ensures Without(s, drop) == s
  {
    if s != [] {
      WithoutNone(s[1..], drop);
      assert [s[0]] + s[1..] == s;
    }
  }
}
