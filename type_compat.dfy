/** The dtype compatibility classifier of the data comparator: two dtype
    descriptors may be value-compared when, once lower-cased, both fall in the
    numeric, the string or the datetime family (tested by substring), or when
    they are the same text. */
module TypeCompat {

  function LowerChar(ch: char): char {
    if 'A' <= ch <= 'Z' then (ch as int + 32) as char else ch
  }

  /** `str.lower()` on ASCII letters. */
  function Lower(s: string): (r: string)
    ensures |r| == |s|
    ensures forall i :: 0 <= i < |s| ==> r[i] == LowerChar(s[i])
  {
    if s == [] then [] else [LowerChar(s[0])] + Lower(s[1..])
  }

  lemma {:induction false} LowerIdempotent(s: string)
    ensures Lower(Lower(s)) == Lower(s)
  {
    var l := Lower(s);
    assert forall i :: 0 <= i < |l| ==> Lower(l)[i] == LowerChar(LowerChar(s[i])) == l[i];
  }

  /** `t` occurs in `s` starting at position `i`. */
  predicate OccursAt(s: string, t: string, i: int) {
    0 <= i <= |s| - |t| && s[i..i + |t|] == t
  }

  /** Python's `t in s` on strings, tried position by position: it holds
      exactly when `t` occurs in `s` at some position. */
  predicate Contains(s: string, t: string)
    ensures Contains(s, t) <==> exists i :: OccursAt(s, t, i)
    decreases |s|
  {
    if |t| > |s| then false
    else if s[..|t|] == t then
      assert OccursAt(s, t, 0);
      true
    else
      assert forall i :: OccursAt(s[1..], t, i) ==> OccursAt(s, t, i + 1);
      assert forall i :: OccursAt(s, t, i) ==> i != 0 && OccursAt(s[1..], t, i - 1);
      Contains(s[1..], t)
  }

  /** A substring of a substring is a substring. */
  lemma ContainsTransitive(s: string, t: string, u: string)
    requires Contains(s, t) && Contains(t, u)
    ensures Contains(s, u)
  {
    var i :| OccursAt(s, t, i);
    var j :| OccursAt(t, u, j);
    forall k | 0 <= k < |u| ensures s[i + j + k] == u[k] {
      assert s[i..i + |t|][j + k] == t[j + k];
      assert t[j..j + |u|][k] == t[j + k];
    }
    assert s[i + j..i + j + |u|] == u;
    assert OccursAt(s, u, i + j);
  }

  /** Whatever contains `long` contains its substring `short`. */
  lemma ContainsWithin(s: string, long: string, short: string)
    requires Contains(long, short)
    ensures Contains(s, long) ==> Contains(s, short)
  {
    if Contains(s, long) {
      ContainsTransitive(s, long, short);
    }
  }

  /** The numeric family; "uint" adds nothing to "int". */
  predicate IsNumeric(s: string)
    ensures IsNumeric(s) <==> NumericCore(s)
  {
    assert Contains("uint", "int") by { assert OccursAt("uint", "int", 1); }
    ContainsWithin(s, "uint", "int");
    Contains(s, "int") || Contains(s, "uint") || Contains(s, "float") || Contains(s, "bool")
  }

  /** The string family; "string" adds nothing to "str". */
  predicate IsString(s: string)
    ensures IsString(s) <==> StringCore(s)
  {
    assert Contains("string", "str") by { assert OccursAt("string", "str", 0); }
    ContainsWithin(s, "string", "str");
    Contains(s, "object") || Contains(s, "string") || Contains(s, "str")
  }

  /** The datetime family; "datetime64" adds nothing to "datetime". */
  predicate IsDatetime(s: string)
    ensures IsDatetime(s) <==> DatetimeCore(s)
  {
    assert Contains("datetime64", "datetime") by { assert OccursAt("datetime64", "datetime", 0); }
    ContainsWithin(s, "datetime64", "datetime");
    Contains(s, "datetime") || Contains(s, "datetime64") || Contains(s, "timestamp")
  }

  predicate NumericCore(s: string) {
    Contains(s, "int") || Contains(s, "float") || Contains(s, "bool")
  }

  predicate StringCore(s: string) {
    Contains(s, "object") || Contains(s, "str")
  }

  predicate DatetimeCore(s: string) {
    Contains(s, "datetime") || Contains(s, "timestamp")
  }

  /** `DFComparator._are_types_compatible`: the three family tests in order,
      then exact match. It holds exactly when both lower-cased descriptors share
      a family by its shortest members, or are equal. */
  predicate AreTypesCompatible(dtype1: string, dtype2: string)
    ensures AreTypesCompatible(dtype1, dtype2) <==>
              || (NumericCore(Lower(dtype1)) && NumericCore(Lower(dtype2)))
              || (StringCore(Lower(dtype1)) && StringCore(Lower(dtype2)))
              || (DatetimeCore(Lower(dtype1)) && DatetimeCore(Lower(dtype2)))
              || Lower(dtype1) == Lower(dtype2)
  {
    var s1, s2 := Lower(dtype1), Lower(dtype2);
    if IsNumeric(s1) && IsNumeric(s2) then true
    else if IsString(s1) && IsString(s2) then true
    else if IsDatetime(s1) && IsDatetime(s2) then true
    else s1 == s2
  }

  /** The classifier is reflexive and symmetric. */
  lemma CompatibleReflexiveSymmetric(a: string, b: string)
    ensures AreTypesCompatible(a, a)
    ensures AreTypesCompatible(a, b) == AreTypesCompatible(b, a)
  {
  }

  /** The classifier ignores letter case. */
  lemma CompatibleIgnoresCase(a: string, b: string)
    ensures AreTypesCompatible(Lower(a), b) == AreTypesCompatible(a, b)
  {
    LowerIdempotent(a);
  }
}
