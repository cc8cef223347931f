/** Ascending sort of integers (`.sort((a, b) => a - b)`) and the facts about
    sorted sequences that the sequence check relies on. */
module Sorting {

  predicate SortedAsc(s: seq<int>)
  {
    forall i, j :: 0 <= i < j < |s| ==> s[i] <= s[j]
  }

  function Insert(x: int, s: seq<int>): (r: seq<int>)
    requires SortedAsc(s)
    ensures SortedAsc(r)
    ensures multiset(r) == multiset(s) + multiset{x}
    ensures forall y :: y in r ==> y in s || y == x
  {
    if |s| == 0 then [x]
    else if x <= s[0] then [x] + s
    else
      assert s == [s[0]] + s[1..];
      var rest := Insert(x, s[1..]);
      SortedCons(s[0], rest);
      [s[0]] + rest
  }

  lemma SortedCons(a: int, s: seq<int>)
    requires SortedAsc(s) && forall y :: y in s ==> a <= y
    ensures SortedAsc([a] + s)
  {
    var r := [a] + s;
    forall i, j | 0 <= i < j < |r|
      ensures r[i] <= r[j]
    {
      assert r[j] == s[j - 1] && s[j - 1] in s;
      if i > 0 {
        assert r[i] == s[i - 1];
      }
    }
  }

  function SortAsc(s: seq<int>): (r: seq<int>)
    ensures SortedAsc(r)
    ensures multiset(r) == multiset(s)
  {
    if |s| == 0 then []
    else
      assert s == [s[0]] + s[1..];
      Insert(s[0], SortAsc(s[1..]))
  }

  /** The least element. */
  function MinOf(s: seq<int>): (m: int)
    requires |s| > 0
    ensures m in s
    ensures forall x :: x in s ==> m <= x
  {
    if |s| == 1 then s[0]
    else
      assert s == [s[0]] + s[1..];
      var t := MinOf(s[1..]); if s[0] <= t then s[0] else t
  }

  /** The greatest element. */
  function MaxOf(s: seq<int>): (m: int)
    requires |s| > 0
    ensures m in s
    ensures forall x :: x in s ==> x <= m
  {
    if |s| == 1 then s[0]
    else
      assert s == [s[0]] + s[1..];
      var t := MaxOf(s[1..]); if s[0] >= t then s[0] else t
  }

  /** The distinct values of a sequence. */
  ghost function Distinct(s: seq<int>): set<int>
  {
    set x | x in s
  }

  /** Sorting keeps the least element first and the greatest last. */
  lemma SortedEnds(s: seq<int>, r: seq<int>)
    requires |s| > 0 && SortedAsc(r) && multiset(r) == multiset(s)
    ensures |r| == |s|
    ensures r[0] == MinOf(s) && r[|r| - 1] == MaxOf(s)
    ensures Distinct(r) == Distinct(s)
  {
    assert |r| == |multiset(r)| == |multiset(s)| == |s|;
    assert forall x :: x in r <==> x in s by {
      forall x ensures x in r <==> x in s {
        assert x in r <==> x in multiset(r);
        assert x in s <==> x in multiset(s);
      }
    }
    var lo, hi := MinOf(s), MaxOf(s);
    assert r[0] in r && r[|r| - 1] in r;
    var i :| 0 <= i < |r| && r[i] == lo;
    var j :| 0 <= j < |r| && r[j] == hi;
    assert r[0] <= r[i] && r[j] <= r[|r| - 1];
  }

  /** The extreme values and the distinct values depend only on which values occur. */
  lemma SameValues(a: seq<int>, b: seq<int>)
    requires |a| > 0 && |b| > 0
    requires forall x :: x in a <==> x in b
    ensures MinOf(a) == MinOf(b) && MaxOf(a) == MaxOf(b) && Distinct(a) == Distinct(b)
  {
  }
}
