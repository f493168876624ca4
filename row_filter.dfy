/** The unchanged-row filter of the data comparator: both tables, projected on
    the compared columns, are concatenated and every row whose projection occurs
    more than once in the concatenation is dropped (`drop_duplicates` with
    `keep=False`); the survivors are split back by origin. */
module RowFilter {
  import opened Tables

  /** Every row projected on `cols`, in order. */
  function ProjectRows(rows: seq<Row>, cols: set<string>): (p: seq<Row>)
    ensures |p| == |rows|
    ensures forall i :: 0 <= i < |rows| ==> p[i] == Project(rows[i], cols)
  {
    if rows == [] then [] else [Project(rows[0], cols)] + ProjectRows(rows[1..], cols)
  }

  /** The rows of `side` that occur exactly once in `all`, in their original order. */
  function Survivors(side: seq<Row>, all: multiset<Row>): (s: seq<Row>)
    ensures |s| <= |side|
    ensures forall r :: r in s <==> r in side && all[r] == 1
  {
    if side == [] then []
    else (if all[side[0]] == 1 then [side[0]] else []) + Survivors(side[1..], all)
  }

  /** Nothing survives when no row of `side` occurs exactly once. */
  lemma {:induction false} SurvivorsNone(side: seq<Row>, all: multiset<Row>)
    requires forall r :: r in side ==> all[r] != 1
    ensures Survivors(side, all) == []
  {
    if side != [] {
      assert side[0] in side;
      SurvivorsNone(side[1..], all);
    }
  }

  /** Every row occurring exactly once in `all` survives. */
  lemma {:induction false} SurvivorsAll(s: seq<Row>, all: multiset<Row>)
    requires forall j :: 0 <= j < |s| ==> all[s[j]] == 1
    ensures Survivors(s, all) == s
  {
    if s != [] {
      forall j | 0 <= j < |s[1..]| ensures all[s[1..][j]] == 1 {
        assert s[1..][j] == s[j + 1];
      }
      SurvivorsAll(s[1..], all);
      assert [s[0]] + s[1..] == s;
    }
  }

  /** `s` is `t` with some elements left out. */
  predicate IsSubsequence(s: seq<Row>, t: seq<Row>) {
    s == [] || (t != [] && ((s[0] == t[0] && IsSubsequence(s[1..], t[1..])) || IsSubsequence(s, t[1..])))
  }

  /** The survivors keep their relative order. */
  lemma {:induction false} SurvivorsKeepOrder(side: seq<Row>, all: multiset<Row>)
    ensures IsSubsequence(Survivors(side, all), side)
  {
    if side != [] {
      SurvivorsKeepOrder(side[1..], all);
      var rest := Survivors(side[1..], all);
      if all[side[0]] == 1 {
        assert Survivors(side, all) == [side[0]] + rest;
        assert ([side[0]] + rest)[1..] == rest;
      } else {
        assert Survivors(side, all) == rest;
      }
    }
  }

  /** Filtering a concatenation filters each part. */
  lemma {:induction false} SurvivorsAppend(a: seq<Row>, b: seq<Row>, all: multiset<Row>)
    ensures Survivors(a + b, all) == Survivors(a, all) + Survivors(b, all)
  {
    if a != [] {
      SurvivorsAppend(a[1..], b, all);
      assert (a + b)[1..] == a[1..] + b;
    } else {
      assert a + b == b;
    }
  }

  /** A survivor occurs no more often than in `side`. */
  lemma {:induction false} SurvivorsSubmultiset(side: seq<Row>, all: multiset<Row>)
    ensures multiset(Survivors(side, all)) <= multiset(side)
  {
    if side != [] {
      SurvivorsSubmultiset(side[1..], all);
      assert side == [side[0]] + side[1..];
    }
  }

  /** The survivors of one side drawn from the concatenation `all` hold no row twice. */
  lemma SurvivorsDistinct(side: seq<Row>, all: multiset<Row>)
    requires multiset(side) <= all
    ensures Distinct(Survivors(side, all))
  {
    var s := Survivors(side, all);
    SurvivorsSubmultiset(side, all);
    forall i, j | 0 <= i < j < |s| ensures s[i] != s[j] {
      if s[i] == s[j] {
        TwoOccurrences(s, i, j);
      }
    }
  }

  /** The filter of the data comparator: the survivors of the current and of
      the previous rows, projected on `cols`. */
  function FilterUnchanged(current: seq<Row>, previous: seq<Row>, cols: set<string>): (r: (seq<Row>, seq<Row>))
    ensures |r.0| <= |current| && |r.1| <= |previous|
    ensures forall x :: x in r.0 <==>
              x in ProjectRows(current, cols) && x !in ProjectRows(previous, cols)
              && multiset(ProjectRows(current, cols))[x] == 1
    ensures forall x :: x in r.1 <==>
              x in ProjectRows(previous, cols) && x !in ProjectRows(current, cols)
              && multiset(ProjectRows(previous, cols))[x] == 1
  {
    var pc, pp := ProjectRows(current, cols), ProjectRows(previous, cols);
    var all := multiset(pc) + multiset(pp);
    (Survivors(pc, all), Survivors(pp, all))
  }

  /** Both filtered sides hold exactly the cells of `cols`. */
  lemma FilterUnchangedRowsOver(current: seq<Row>, previous: seq<Row>, cols: set<string>)
    requires forall i :: 0 <= i < |current| ==> cols <= current[i].Keys
    requires forall i :: 0 <= i < |previous| ==> cols <= previous[i].Keys
    ensures RowsOver(FilterUnchanged(current, previous, cols).0, cols)
    ensures RowsOver(FilterUnchanged(current, previous, cols).1, cols)
  {
    var pc, pp := ProjectRows(current, cols), ProjectRows(previous, cols);
    var all := multiset(pc) + multiset(pp);
    var fc, fp := Survivors(pc, all), Survivors(pp, all);
    forall i | 0 <= i < |fc| ensures fc[i].Keys == cols {
      assert fc[i] in pc;
    }
    forall i | 0 <= i < |fp| ensures fp[i].Keys == cols {
      assert fp[i] in pp;
    }
  }

  /** What survives on one side never occurs on the other, and neither side keeps a row twice. */
  lemma FilterSidesDisjoint(current: seq<Row>, previous: seq<Row>, cols: set<string>)
    ensures forall r :: r in FilterUnchanged(current, previous, cols).0 ==> r !in FilterUnchanged(current, previous, cols).1
    ensures forall r :: r in FilterUnchanged(current, previous, cols).0 ==> r !in ProjectRows(previous, cols)
    ensures forall r :: r in FilterUnchanged(current, previous, cols).1 ==> r !in ProjectRows(current, cols)
    ensures Distinct(FilterUnchanged(current, previous, cols).0)
    ensures Distinct(FilterUnchanged(current, previous, cols).1)
  {
    var pc, pp := ProjectRows(current, cols), ProjectRows(previous, cols);
    var all := multiset(pc) + multiset(pp);
    SurvivorsDistinct(pc, all);
    SurvivorsDistinct(pp, all);
  }

  /** A row repeated within one side is dropped, even when the other side lacks it. */
  lemma RepeatedRowDropped(current: seq<Row>, previous: seq<Row>, cols: set<string>, i: nat, j: nat)
    requires i < j < |current|
    requires Project(current[i], cols) == Project(current[j], cols)
    ensures Project(current[i], cols) !in FilterUnchanged(current, previous, cols).0
  {
    var pc := ProjectRows(current, cols);
    TwoOccurrences(pc, i, j);
  }

  /** When both sides hold the same rows in any order, nothing survives. */
  lemma PermutedRowsAllDropped(current: seq<Row>, previous: seq<Row>, cols: set<string>)
    requires multiset(ProjectRows(current, cols)) == multiset(ProjectRows(previous, cols))
    ensures FilterUnchanged(current, previous, cols) == ([], [])
  {
    var pc, pp := ProjectRows(current, cols), ProjectRows(previous, cols);
    var all := multiset(pc) + multiset(pp);
    SurvivorsNone(pc, all);
    SurvivorsNone(pp, all);
  }
}
