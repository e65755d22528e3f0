/** Sorting integers, as `Array.prototype.sort` does with a numeric comparator. */
module Sorting {
  import opened Collections

  predicate NonDecreasing(s: seq<int>) {
    forall i, j :: 0 <= i < j < |s| ==> s[i] <= s[j]
  }

  predicate Ascending(s: seq<int>) {
    forall i, j :: 0 <= i < j < |s| ==> s[i] < s[j]
  }

  function InsertAsc(s: seq<int>, x: int): seq<int> {
    if s == [] || x <= s[0] then [x] + s else [s[0]] + InsertAsc(s[1..], x)
  }

  function SortAsc(s: seq<int>): seq<int> {
    if s == [] then [] else InsertAsc(SortAsc(s[1..]), s[0])
  }

  lemma {:induction false} InsertAscSorted(s: seq<int>, x: int)
    requires NonDecreasing(s)
    ensures NonDecreasing(InsertAsc(s, x)) && |InsertAsc(s, x)| == |s| + 1
    ensures s != [] ==> InsertAsc(s, x)[0] >= if x <= s[0] then x else s[0]
  {
    if s != [] && x > s[0] {
      assert forall i :: 0 <= i < |s| - 1 ==> s[1..][i] == s[i + 1];
      InsertAscSorted(s[1..], x);
    }
  }

  lemma {:induction false} InsertAscMembers(s: seq<int>, x: int)
    ensures Members(InsertAsc(s, x)) == Members(s) + {x}
  {
    hide Members;
    MembersOfOne(x);
    if s == [] || x <= s[0] {
      MembersOfSum([x], s);
    } else {
      InsertAscMembers(s[1..], x);
      MembersOfSum([s[0]], InsertAsc(s[1..], x));
      MembersOfSum([s[0]], s[1..]);
      assert s == [s[0]] + s[1..];
    }
  }

  lemma {:induction false} SortAscSorts(s: seq<int>)
    ensures NonDecreasing(SortAsc(s)) && |SortAsc(s)| == |s| && Members(SortAsc(s)) == Members(s)
  {
    hide Members;
    if s != [] {
      SortAscSorts(s[1..]);
      InsertAscSorted(SortAsc(s[1..]), s[0]);
      InsertAscMembers(SortAsc(s[1..]), s[0]);
      MembersOfOne(s[0]);
      MembersOfSum([s[0]], s[1..]);
      assert s == [s[0]] + s[1..];
    }
  }

  lemma {:induction false} InsertAscKeeps(s: seq<int>, x: int)
    ensures multiset(InsertAsc(s, x)) == multiset(s) + multiset{x}
  {
    if s != [] && x > s[0] {
      InsertAscKeeps(s[1..], x);
      assert s == [s[0]] + s[1..];
    }
  }

  /** Nothing is lost, added or repeated. */
  lemma {:induction false} SortAscKeeps(s: seq<int>)
    ensures multiset(SortAsc(s)) == multiset(s)
  {
    if s != [] {
      SortAscKeeps(s[1..]);
      InsertAscKeeps(SortAsc(s[1..]), s[0]);
      assert s == [s[0]] + s[1..];
    }
  }

  lemma SameMembers(s: seq<int>, t: seq<int>)
    requires multiset(s) == multiset(t)
    ensures Members(s) == Members(t) && |s| == |t|
  {
    assert |multiset(s)| == |s| && |multiset(t)| == |t|;
    forall x
      ensures x in s <==> x in t
    {
      assert x in s <==> x in multiset(s);
      assert x in t <==> x in multiset(t);
    }
  }

  /** An ordered permutation of distinct elements ascends strictly, and only of distinct elements. */
  lemma OrderedAscends(s: seq<int>, t: seq<int>)
    requires NonDecreasing(s) && multiset(s) == multiset(t)
    ensures Members(s) == Members(t) && (Distinct(t) <==> Ascending(s))
  {
    SameMembers(s, t);
    if Distinct(t) {
      DistinctCount(t);
      CountDistinct(s);
    }
    if Ascending(s) {
      DistinctCount(s);
      CountDistinct(t);
    }
  }

  /** Sorting a permutation of distinct elements gives a strictly ascending list of them. */
  lemma SortedAscends(s: seq<int>, t: seq<int>)
    requires Distinct(t) && |s| == |t| && Members(s) == Members(t)
    ensures Ascending(SortAsc(s)) && |SortAsc(s)| == |s| && Members(SortAsc(s)) == Members(t)
    ensures |Members(t)| == |t|
  {
    SortAscSorts(s);
    DistinctCount(t);
    CountDistinct(SortAsc(s));
  }
}
