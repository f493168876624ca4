/** Counting changed cells in one column: positionally (the data comparator's
    fast path over identically labelled rows, and the parquet comparator), and
    over every previous/current row pair that shares a key (the data
    comparator's outer-merge fallback, restricted to rows present on both sides). */
module Alignment {
  import opened Tables

  /** Every row has a cell in column `c`. */
  predicate HasColumn(rows: seq<Row>, c: string) {
    forall i :: 0 <= i < |rows| ==> c in rows[i]
  }

  /** Every row has a cell in every key column. */
  predicate HasKeys(rows: seq<Row>, keys: seq<string>) {
    forall i, k :: 0 <= i < |rows| && k in keys ==> k in rows[i]
  }

  /** `(~((s1 == s2) | (s1.isna() & s2.isna()))).sum()` over rows aligned by position. */
  function NullSafeMismatches(a: seq<Row>, b: seq<Row>, c: string): (n: nat)
    requires |a| == |b| && HasColumn(a, c) && HasColumn(b, c)
    ensures n <= |a|
    ensures n == 0 <==> forall i :: 0 <= i < |a| ==> a[i][c] == b[i][c]
  {
    if a == [] then 0
    else (if NullSafeEq(a[0][c], b[0][c]) then 0 else 1) + NullSafeMismatches(a[1..], b[1..], c)
  }

  /** `(s1 != s2).sum()` over rows aligned by position: a missing cell differs from everything. */
  function Inequalities(a: seq<Row>, b: seq<Row>, c: string): (n: nat)
    requires |a| == |b| && HasColumn(a, c) && HasColumn(b, c)
    ensures n <= |a|
    ensures n == 0 <==> forall i :: 0 <= i < |a| ==> CellEq(a[i][c], b[i][c])
  {
    if a == [] then 0
    else (if CellEq(a[0][c], b[0][c]) then 0 else 1) + Inequalities(a[1..], b[1..], c)
  }

  /** `!=` counts every null-safe mismatch, and also every position where both cells are missing. */
  lemma {:induction false} InequalitiesCountMore(a: seq<Row>, b: seq<Row>, c: string)
    requires |a| == |b| && HasColumn(a, c) && HasColumn(b, c)
    ensures Inequalities(a, b, c) == NullSafeMismatches(a, b, c) + BothMissing(a, b, c)
  {
    if a != [] {
      InequalitiesCountMore(a[1..], b[1..], c);
    }
  }

  /** The positions where both cells of column `c` are missing. */
  function BothMissing(a: seq<Row>, b: seq<Row>, c: string): nat
    requires |a| == |b| && HasColumn(a, c) && HasColumn(b, c)
  {
    if a == [] then 0
    else (if a[0][c].Missing? && b[0][c].Missing? then 1 else 0) + BothMissing(a[1..], b[1..], c)
  }

  /** The rows of `current` that share `p`'s key and differ from `p` in column `c`. */
  function KeyMatchMismatches(p: Row, current: seq<Row>, keys: seq<string>, c: string): (n: nat)
    requires c in p && (forall k :: k in keys ==> k in p)
    requires HasColumn(current, c) && HasKeys(current, keys)
    ensures n <= |current|
    ensures n == 0 <==> forall j :: 0 <= j < |current| && KeyOf(current[j], keys) == KeyOf(p, keys) ==> current[j][c] == p[c]
  {
    if current == [] then 0
    else (if KeyOf(current[0], keys) == KeyOf(p, keys) && !NullSafeEq(p[c], current[0][c]) then 1 else 0)
         + KeyMatchMismatches(p, current[1..], keys, c)
  }

  lemma MulSucc(a: nat, b: nat)
    ensures (a + 1) * b == b + a * b
  {
  }

  /** The merge fallback's count: null-safe mismatches in column `c` over every
      (previous, current) row pair with equal keys. */
  function PairMismatches(previous: seq<Row>, current: seq<Row>, keys: seq<string>, c: string): (n: nat)
    requires HasColumn(previous, c) && HasKeys(previous, keys)
    requires HasColumn(current, c) && HasKeys(current, keys)
    ensures n <= |previous| * |current|
    ensures n == 0 <==> forall i, j :: 0 <= i < |previous| && 0 <= j < |current| && KeyOf(current[j], keys) == KeyOf(previous[i], keys)
                                       ==> current[j][c] == previous[i][c]
  {
    if previous == [] then 0
    else
      var n := KeyMatchMismatches(previous[0], current, keys, c) + PairMismatches(previous[1..], current, keys, c);
      MulSucc(|previous[1..]|, |current|);
      assert n == 0 ==> forall i, j :: 0 <= i < |previous| && 0 <= j < |current| && KeyOf(current[j], keys) == KeyOf(previous[i], keys)
                                       ==> current[j][c] == previous[i][c] by {
        if n == 0 {
          forall i, j | 0 <= i < |previous| && 0 <= j < |current| && KeyOf(current[j], keys) == KeyOf(previous[i], keys)
            ensures current[j][c] == previous[i][c]
          {
            if i > 0 {
              assert previous[1..][i - 1] == previous[i];
            }
          }
        }
      }
      n
  }
}
