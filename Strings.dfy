/** strings.EqualFold, the case-insensitive comparison used to match header
    cells against column aliases, restricted to ASCII case folding. */
module Strings {

  function LowerAscii(c: char): char
  {
    if 'A' <= c <= 'Z' then (c as int - 'A' as int + 'a' as int) as char else c
  }

  /** Go's per-character test: equal, or an upper-case ASCII letter and its
      lower-case form (in either order). */
  predicate FoldEq(a: char, b: char)
  {
    a == b
    || ('A' <= a <= 'Z' && b == (a as int - 'A' as int + 'a' as int) as char)
    || ('A' <= b <= 'Z' && a == (b as int - 'A' as int + 'a' as int) as char)
  }

  /** The scan of strings.EqualFold from position i on. */
  predicate EqualFoldFrom(s: string, t: string, i: nat)
    requires |s| == |t| && i <= |s|
    ensures s == t ==> EqualFoldFrom(s, t, i)
    decreases |s| - i
  {
    i == |s| || (FoldEq(s[i], t[i]) && EqualFoldFrom(s, t, i + 1))
  }

  /** strings.EqualFold: same length, and FoldEq at every position. */
  predicate EqualFold(s: string, t: string)
    ensures EqualFold(s, t) ==> |s| == |t|
    ensures s == t ==> EqualFold(s, t)
  {
    |s| == |t| && EqualFoldFrom(s, t, 0)
  }

  /** Reference: both strings lower-cased. */
  function Lower(s: string): (r: string)
    ensures |r| == |s| && forall i :: 0 <= i < |s| ==> r[i] == LowerAscii(s[i])
  {
    if s == [] then [] else [LowerAscii(s[0])] + Lower(s[1..])
  }

  lemma FoldEqIsLowerEq(a: char, b: char)
    ensures FoldEq(a, b) <==> LowerAscii(a) == LowerAscii(b)
  {
  }

  lemma {:induction false} EqualFoldFromSpec(s: string, t: string, i: nat)
    requires |s| == |t| && i <= |s|
    ensures EqualFoldFrom(s, t, i) <==> forall j :: i <= j < |s| ==> LowerAscii(s[j]) == LowerAscii(t[j])
    decreases |s| - i
  {
    if i < |s| {
      EqualFoldFromSpec(s, t, i + 1);
      FoldEqIsLowerEq(s[i], t[i]);
    }
  }

  /** EqualFold holds exactly when the two strings agree once lower-cased;
      so it is an equivalence and "Date" matches "date" and "DATE". */
  lemma EqualFoldSpec(s: string, t: string)
    ensures EqualFold(s, t) <==> Lower(s) == Lower(t)
  {
    if |s| == |t| {
      EqualFoldFromSpec(s, t, 0);
      if Lower(s) == Lower(t) {
        forall j | 0 <= j < |s| ensures LowerAscii(s[j]) == LowerAscii(t[j]) {
          assert Lower(s)[j] == Lower(t)[j];
        }
      }
    } else {
      assert |Lower(s)| != |Lower(t)|;
    }
  }

  /** The order of the arguments does not matter. */
  lemma EqualFoldSymmetric(s: string, t: string)
    ensures EqualFold(s, t) <==> EqualFold(t, s)
  {
    EqualFoldSpec(s, t);
    EqualFoldSpec(t, s);
  }

  lemma EqualFoldExample()
    ensures EqualFold("Date", "date") && EqualFold("Date", "DATE") && !EqualFold("Date", "Data")
  {
    EqualFoldSpec("Date", "date");
    EqualFoldSpec("Date", "DATE");
    EqualFoldSpec("Date", "Data");
    assert Lower("Date")[3] != Lower("Data")[3];
  }
}
