/** Python's `sorted()` on a list of strings: code-point lexicographic order. */
module Sorting {

  /** `a <= b` on Python strings: compare character codes left to right; a
      proper prefix comes first. */
  predicate LexLe(a: string, b: string)
    decreases |a|
  {
    a == [] || (b != [] && (a[0] < b[0] || (a[0] == b[0] && LexLe(a[1..], b[1..]))))
  }

  lemma {:induction false} LexLeTotal(a: string, b: string)
    ensures LexLe(a, b) || LexLe(b, a)
    decreases |a|
  {
    if a != [] && b != [] && a[0] == b[0] {
      LexLeTotal(a[1..], b[1..]);
    }
  }

  lemma {:induction false} LexLeTrans(a: string, b: string, c: string)
    requires LexLe(a, b) && LexLe(b, c)
    ensures LexLe(a, c)
    decreases |a|
  {
    if a != [] && a[0] == b[0] && b[0] == c[0] {
      LexLeTrans(a[1..], b[1..], c[1..]);
    }
  }

  predicate Sorted(s: seq<string>) {
    forall i, j :: 0 <= i < j < |s| ==> LexLe(s[i], s[j])
  }

  /** x placed into a sorted list before the first element it does not follow. */
  function Insert(x: string, s: seq<string>): (r: seq<string>)
    requires Sorted(s)
    ensures Sorted(r)
    ensures multiset(r) == multiset(s) + multiset{x}
  {
    if s == [] then [x]
    else if LexLe(x, s[0]) then
      assert forall j :: 0 < j < |s| ==> LexLe(x, s[j]) by {
        forall j | 0 < j < |s| ensures LexLe(x, s[j]) { LexLeTrans(x, s[0], s[j]); }
      }
      [x] + s
    else
      var rest := Insert(x, s[1..]);
      LexLeTotal(x, s[0]);
      assert forall j :: 0 <= j < |s[1..]| ==> LexLe(s[0], s[1..][j]) by {
        forall j | 0 <= j < |s[1..]| ensures LexLe(s[0], s[1..][j]) { assert s[1..][j] == s[j + 1]; }
      }
      LowerBoundKept(s[0], s[1..], x, rest);
      assert s == [s[0]] + s[1..];
      [s[0]] + rest
  }

  /** A lower bound of a list and of x bounds the list with x added. */
  lemma LowerBoundKept(b: string, s: seq<string>, x: string, r: seq<string>)
    requires forall j :: 0 <= j < |s| ==> LexLe(b, s[j])
    requires LexLe(b, x)
    requires multiset(r) == multiset(s) + multiset{x}
    ensures forall j :: 0 <= j < |r| ==> LexLe(b, r[j])
  {
    forall j | 0 <= j < |r| ensures LexLe(b, r[j]) {
      var y := r[j];
      assert y in multiset(r);
      if y != x {
        assert y in multiset(s);
        var k :| 0 <= k < |s| && s[k] == y;
      }
    }
  }

  /** `sorted(s)`: the same strings, in non-decreasing order. */
  function Sort(s: seq<string>): (r: seq<string>)
    ensures Sorted(r)
    ensures multiset(r) == multiset(s)
    ensures |r| == |s|
  {
    if s == [] then []
    else
      assert s == [s[0]] + s[1..];
      Insert(s[0], Sort(s[1..]))
  }
}
