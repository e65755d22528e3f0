/** Small facts about the built-in collections. */
module Collections {
  datatype Option<T> = None | Some(value: T)

  ghost function Pick<T>(s: set<T>): (x: T)
    requires s != {}
    ensures x in s
  {
    var x :| x in s;
    x
  }

  /** The element a Set iterator yields next; its order is left open. */
  method Next<T>(s: set<T>) returns (x: T)
    requires s != {}
    ensures x in s
  {
    x :| x in s;
  }

  function Members<T>(s: seq<T>): set<T> {
    set x | x in s
  }

  function RemoveAt<T>(s: seq<T>, i: nat): seq<T>
    requires i < |s|
  {
    s[..i] + s[i + 1..]
  }

  function InsertAt<T>(s: seq<T>, i: nat, x: T): seq<T>
    requires i <= |s|
  {
    s[..i] + [x] + s[i..]
  }

  function IndexOf<T(==)>(s: seq<T>, x: T): (i: nat)
    requires x in s
    ensures i < |s| && s[i] == x && forall j :: 0 <= j < i ==> s[j] != x
  {
    if s[0] == x then 0 else 1 + IndexOf(s[1..], x)
  }

  predicate Distinct<T(==)>(s: seq<T>) {
    forall i, j :: 0 <= i < j < |s| ==> s[i] != s[j]
  }

  lemma {:induction false} DistinctCount<T>(s: seq<T>)
    requires Distinct(s)
    ensures |Members(s)| == |s|
  {
    if s != [] {
      var n := |s| - 1;
      DistinctCount(s[..n]);
      assert s == s[..n] + [s[n]];
      assert Members(s) == Members(s[..n]) + {s[n]};
    }
  }

  lemma {:induction false} AtMostLengthMembers<T>(s: seq<T>)
    ensures |Members(s)| <= |s|
  {
    if s != [] {
      var n := |s| - 1;
      AtMostLengthMembers(s[..n]);
      assert s == s[..n] + [s[n]];
      assert Members(s) == Members(s[..n]) + {s[n]};
    }
  }

  /** As many members as positions: no element occurs twice. */
  lemma CountDistinct<T>(s: seq<T>)
    requires |Members(s)| == |s|
    ensures Distinct(s)
  {
    forall i, j | 0 <= i < j < |s|
      ensures s[i] != s[j]
    {
      if s[i] == s[j] {
        var rest := s[..j] + s[j + 1..];
        assert rest[i] == s[i];
        assert forall k :: 0 <= k < |s| && k != j ==> s[k] == rest[if k < j then k else k - 1];
        assert Members(s) == Members(rest);
        AtMostLengthMembers(rest);
        assert false;
      }
    }
  }

  lemma MembersOfSum<T>(s: seq<T>, t: seq<T>)
    ensures Members(s + t) == Members(s) + Members(t)
  {
  }

  lemma MembersOfOne<T>(x: T)
    ensures Members([x]) == {x}
  {
  }

  lemma PopMembers<T>(s: seq<T>)
    requires s != [] && Distinct(s)
    ensures Members(s[..|s| - 1]) == Members(s) - {s[|s| - 1]}
    ensures Distinct(s[..|s| - 1])
  {
    var n := |s| - 1;
    assert s == s[..n] + [s[n]];
    MembersOfSum(s[..n], [s[n]]);
  }

  lemma NotAmong<T>(s: seq<T>, x: T)
    requires forall i :: 0 <= i < |s| ==> s[i] != x
    ensures x !in Members(s)
  {
  }

  lemma RemoveAtMembers<T>(s: seq<T>, i: nat)
    requires i < |s| && Distinct(s)
    ensures Members(RemoveAt(s, i)) == Members(s) - {s[i]}
    ensures Distinct(RemoveAt(s, i))
  {
    hide Members;
    var before, after := s[..i], s[i + 1..];
    assert s == before + [s[i]] + after;
    MembersOfSum(before, [s[i]]);
    MembersOfSum(before + [s[i]], after);
    MembersOfSum(before, after);
    MembersOfOne(s[i]);
    NotAmong(before, s[i]);
    NotAmong(after, s[i]);
  }

  lemma CardinalityMonotone<T>(a: set<T>, b: set<T>)
    requires a <= b
    ensures |a| <= |b|
    ensures |a| == |b| ==> a == b
  {
    assert b == a + (b - a);
  }
}
