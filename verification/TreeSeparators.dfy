/** What the separators of a tree say about the keys stored to their right, and when they stop saying it. */
module TreeSeparators {
  import opened Collections
  import opened Keys
  import opened TreeShape
  import opened TreeMerge
  import opened TreeEntries
  import opened TreeUpdate

  // ---------------------------------------------------------------------
  // Exact separators
  // ---------------------------------------------------------------------

  /** The keys stored in the leaves under a node. */
  ghost function KeysUnder(t: Tree, n: NodeId): set<Key>
    requires Grounded(t) && n in t.nodes
    decreases t.spans[n].ht
  {
    if t.nodes[n].leaf then Members(t.nodes[n].keys)
    else set c, k | c in t.nodes[n].children && k in KeysUnder(t, c) :: k
  }

  ghost predicate IsLeast(k: Key, keys: set<Key>) {
    k in keys && forall other :: other in keys ==> AtMost(At(k), At(other))
  }

  /** Separator `i` of a node is the smallest key stored under the child to its right. */
  ghost predicate ExactAt(t: Tree, n: NodeId, i: nat)
    requires Grounded(t) && n in t.nodes && i < |t.nodes[n].keys|
  {
    i + 1 < |t.nodes[n].children| && IsLeast(t.nodes[n].keys[i], KeysUnder(t, t.nodes[n].children[i + 1]))
  }

  ghost predicate Exact(t: Tree)
    requires Grounded(t)
  {
    forall n, i :: n in t.nodes && !t.nodes[n].leaf && 0 <= i < |t.nodes[n].keys| ==> ExactAt(t, n, i)
  }

  function SeparatorsAt(nodes: map<NodeId, BNode>, n: NodeId): set<Key> {
    if n in nodes && !nodes[n].leaf then Members(nodes[n].keys) else {}
  }

  /** The keys in the internal nodes. */
  function Separators(nodes: map<NodeId, BNode>): set<Key> {
    set n, k | n in nodes && k in SeparatorsAt(nodes, n) :: k
  }

  /** The keys in the leaves. */
  function Stored(nodes: map<NodeId, BNode>): set<Key> {
    set e | e in Entries(nodes) :: e.0
  }

  /** The separators that are no longer stored. */
  function Stale(nodes: map<NodeId, BNode>): set<Key> {
    Separators(nodes) - Stored(nodes)
  }

  /** The slot of an internal node that a key of its range falls into. */
  lemma SlotFor(n: BNode, s: Span, k: Key) returns (i: nat)
    requires s.ht > 0 && Covers(s, k)
    ensures i <= |n.keys| && Covers(Slot(n, s, i), k)
  {
    hide Less;
    i := 0;
    while i < |n.keys| && AtMost(At(n.keys[i]), At(k))
      invariant 0 <= i <= |n.keys|
      invariant i > 0 ==> AtMost(At(n.keys[i - 1]), At(k))
    {
      i := i + 1;
    }
    if i < |n.keys| {
      LessTotal(At(n.keys[i]), At(k));
    }
  }

  lemma OkIsGrounded(t: Tree, odd: set<NodeId>)
    requires Ok(t, Whole, odd)
    ensures Grounded(t)
  {
    OddMore(t, Whole, odd);
    forall n, c | n in t.nodes && c in t.nodes[n].children
      ensures c in t.nodes && t.spans[c].ht < t.spans[n].ht
    {
      ChildFacts(t, Whole, n);
    }
    hide LinksOk;
  }

  /** A child covers only keys that its parent covers. */
  lemma ChildInside(t: Tree, odd: set<NodeId>, n: NodeId, c: NodeId, k: Key)
    requires Ok(t, Whole, odd) && n in t.nodes && c in t.nodes[n].children
    ensures c in t.nodes && (Covers(t.spans[c], k) ==> Covers(t.spans[n], k))
  {
    OddMore(t, Whole, odd);
    ChildFacts(t, Whole, n);
    ParentOfChild(t, n, c);
    var p, i := InsideParent(t, odd, c);
    hide Less, Ok;
    ParentIs(t, odd, p, i, n, c);
    if Covers(t.spans[c], k) {
      LessTrans(t.spans[n].lo, t.spans[c].lo, At(k));
      LessTrans(At(k), t.spans[c].hi, t.spans[n].hi);
    }
  }

  lemma ParentIs(t: Tree, odd: set<NodeId>, p: NodeId, i: nat, n: NodeId, c: NodeId)
    requires Ok(t, Whole, odd) && p in t.nodes && i < |t.nodes[p].children| && t.nodes[p].children[i] == c
    requires n in t.nodes && c in t.nodes[n].children
    ensures p == n
  {
    OddMore(t, Whole, odd);
    ChildFacts(t, Whole, n);
    ChildFacts(t, Whole, p);
  }

  lemma StoredAt(nodes: map<NodeId, BNode>, leaf: NodeId, k: Key)
    requires leaf in nodes && nodes[leaf].leaf && |nodes[leaf].keys| == |nodes[leaf].values| && k in nodes[leaf].keys
    ensures k in Stored(nodes)
  {
    var i :| 0 <= i < |nodes[leaf].keys| && nodes[leaf].keys[i] == k;
    var e := (k, nodes[leaf].values[i]);
    assert e in EntriesAt(nodes, leaf);
    hide EntriesAt;
    assert e in Entries(nodes);
  }

  /** A leaf holds exactly the stored keys of its range. */
  lemma LeafKeys(t: Tree, leaf: NodeId, k: Key)
    requires Ok(t, Whole, {}) && leaf in t.nodes && t.nodes[leaf].leaf
    ensures k in t.nodes[leaf].keys <==> k in Stored(t.nodes) && Covers(t.spans[leaf], k)
  {
    assert LinksOk(t, Whole, leaf);
    hide Less;
    if k in t.nodes[leaf].keys {
      StoredAt(t.nodes, leaf, k);
    }
    if k in Stored(t.nodes) && Covers(t.spans[leaf], k) {
      var e :| e in Entries(t.nodes) && e.0 == k;
      KeyOnlyThere(t, {}, leaf, k, e);
    }
  }

  /** Under a node are exactly the stored keys of its range. */
  lemma {:induction false} KeysUnderRange(t: Tree, n: NodeId, k: Key)
    requires Ok(t, Whole, {}) && Grounded(t) && n in t.nodes
    ensures k in KeysUnder(t, n) <==> k in Stored(t.nodes) && Covers(t.spans[n], k)
    decreases t.spans[n].ht
  {
    assert LinksOk(t, Whole, n);
    if t.nodes[n].leaf {
      LeafKeys(t, n, k);
    } else {
      hide Less, Covers, Stored, Ok;
      if c :| c in t.nodes[n].children && k in KeysUnder(t, c) {
        KeysUnderRange(t, c, k);
        ChildInside(t, {}, n, c, k);
      }
      if k in Stored(t.nodes) && Covers(t.spans[n], k) {
        var i := SlotFor(t.nodes[n], t.spans[n], k);
        assert ChildOk(t, Whole, n, i);
        var c := t.nodes[n].children[i];
        assert c in t.nodes[n].children;
        KeysUnderRange(t, c, k);
      }
    }
  }

  lemma ExactAtIsStored(t: Tree, n: NodeId, i: nat)
    requires Ok(t, Whole, {}) && Grounded(t) && n in t.nodes && !t.nodes[n].leaf && i < |t.nodes[n].keys|
    ensures ExactAt(t, n, i) <==> t.nodes[n].keys[i] in Stored(t.nodes)
  {
    var k := t.nodes[n].keys[i];
    assert LinksOk(t, Whole, n) && ChildOk(t, Whole, n, i + 1);
    var c := t.nodes[n].children[i + 1];
    SpanNonEmpty(t, {}, c);
    KeysUnderRange(t, c, k);
    hide Less, Ok, Stored, KeysUnder;
    forall other | other in KeysUnder(t, c)
      ensures AtMost(At(k), At(other))
    {
      KeysUnderRange(t, c, other);
    }
  }

  /** The separators are exact if and only if all of them are stored. */
  lemma ExactMeansNoneStale(t: Tree)
    requires Ok(t, Whole, {})
    ensures Grounded(t) && (Exact(t) <==> Stale(t.nodes) == {})
  {
    OkIsGrounded(t, {});
    hide Ok, ExactAt, Stored;
    forall n, i | n in t.nodes && !t.nodes[n].leaf && 0 <= i < |t.nodes[n].keys|
      ensures ExactAt(t, n, i) <==> t.nodes[n].keys[i] !in Stale(t.nodes)
    {
      ExactAtIsStored(t, n, i);
      assert t.nodes[n].keys[i] in SeparatorsAt(t.nodes, n);
    }
  }

  // ---------------------------------------------------------------------
  // Where a separator occurs
  // ---------------------------------------------------------------------

  /** A key strictly inside the range of a node is in no node further up. */
  lemma {:induction false} NotFurtherUp(t: Tree, odd: set<NodeId>, n: NodeId, k: Key, m: NodeId)
    requires Ok(t, Whole, odd) && n in t.nodes && m in t.nodes && t.spans[n].ht < t.spans[m].ht
    requires Less(t.spans[n].lo, At(k)) && Less(At(k), t.spans[n].hi)
    ensures k !in t.nodes[m].keys
    decreases t.spans[t.root].ht - t.spans[n].ht
  {
    SpanNonEmpty(t, odd, m);
    var p, i := InsideParent(t, odd, n);
    assert LinksOk(t, Whole, m);
    hide Less, Ok, LinksOk;
    LessTrans(t.spans[p].lo, t.spans[n].lo, At(k));
    LessTrans(At(k), t.spans[n].hi, t.spans[p].hi);
    if t.spans[p].ht < t.spans[m].ht {
      NotFurtherUp(t, odd, p, k, m);
    } else if p == m {
      BetweenSeparators(t.nodes[p], t.spans[p], i, k);
    } else {
      DisjointSpans(t, odd, p, m);
      OutsideRange(t.nodes[m].keys, t.spans[m], t.spans[p], k);
    }
  }

  lemma BetweenSeparators(n: BNode, s: Span, i: nat, k: Key)
    requires s.ht > 0 && i <= |n.keys| && Sorted(n.keys)
    requires Less(Slot(n, s, i).lo, At(k)) && Less(At(k), Slot(n, s, i).hi)
    ensures k !in n.keys
  {
    hide Less;
    forall j | 0 <= j < |n.keys|
      ensures n.keys[j] != k
    {
      LessTotal(At(k), At(k));
      if j < i {
        assert j == i - 1 || Less(At(n.keys[j]), At(n.keys[i - 1]));
        LessTrans(At(n.keys[j]), At(n.keys[i - 1]), At(k));
      } else {
        assert j == i || Less(At(n.keys[i]), At(n.keys[j]));
        LessTrans(At(k), At(n.keys[i]), At(n.keys[j]));
      }
    }
  }

  lemma OutsideRange(keys: seq<Key>, s: Span, r: Span, k: Key)
    requires InRange(keys, s.lo, s.hi, true) && Covers(r, k)
    requires AtMost(s.hi, r.lo) || AtMost(r.hi, s.lo)
    ensures k !in keys
  {
    hide Less;
    forall j | 0 <= j < |keys|
      ensures keys[j] != k
    {
      LessTotal(At(k), At(k));
      if AtMost(s.hi, r.lo) {
        LessTrans(At(keys[j]), s.hi, r.lo);
        LessTrans(At(keys[j]), r.lo, At(k));
      } else {
        LessTrans(At(k), r.hi, s.lo);
        LessTrans(At(k), s.lo, At(keys[j]));
      }
    }
  }

  /** A separator above the leaves occurs in no other node. */
  lemma SeparatorIsUnique(t: Tree, odd: set<NodeId>, p: NodeId, i: nat, m: NodeId)
    requires Ok(t, Whole, odd) && p in t.nodes && t.spans[p].ht == 1 && i < |t.nodes[p].keys|
    requires m != p
    ensures t.nodes[p].keys[i] !in SeparatorsAt(t.nodes, m)
  {
    if m in t.nodes && !t.nodes[m].leaf {
      assert LinksOk(t, Whole, p) && LinksOk(t, Whole, m);
      var k := t.nodes[p].keys[i];
      hide Less;
      if t.spans[m].ht == 1 {
        DisjointSpans(t, odd, p, m);
        OutsideRange(t.nodes[m].keys, t.spans[m], t.spans[p], k);
      } else {
        NotFurtherUp(t, odd, p, k, m);
      }
    }
  }

  /** A separator that a leaf covers is where the range of that leaf begins. */
  lemma CoveredSeparator(t: Tree, odd: set<NodeId>, leaf: NodeId, k: Key)
    requires Ok(t, Whole, odd) && leaf in t.nodes && t.nodes[leaf].leaf && Covers(t.spans[leaf], k)
    requires k in Separators(t.nodes)
    ensures t.spans[leaf].lo == At(k)
  {
    var m :| m in t.nodes && k in SeparatorsAt(t.nodes, m);
    assert LinksOk(t, Whole, leaf) && LinksOk(t, Whole, m);
    if t.spans[leaf].lo != At(k) {
      NotFurtherUp(t, odd, leaf, k, m);
    }
  }

  // ---------------------------------------------------------------------
  // What each change to the nodes does to the separators
  // ---------------------------------------------------------------------

  /** Only the separators in three nodes have changed. */
  lemma SeparatorsMoved(nodes: map<NodeId, BNode>, nodes1: map<NodeId, BNode>, a: NodeId, b: NodeId, c: NodeId,
                        gone: set<Key>, more: set<Key>)
    requires forall n :: n != a && n != b && n != c ==> SeparatorsAt(nodes1, n) == SeparatorsAt(nodes, n)
    requires forall n :: n != a && n != b && n != c ==> SeparatorsAt(nodes, n) !! gone
    requires SeparatorsAt(nodes1, a) + SeparatorsAt(nodes1, b) + SeparatorsAt(nodes1, c) ==
             SeparatorsAt(nodes, a) + SeparatorsAt(nodes, b) + SeparatorsAt(nodes, c) - gone + more
    ensures Separators(nodes1) == Separators(nodes) - gone + more
  {
    forall k
      ensures k in Separators(nodes1) <==> k in Separators(nodes) - gone + more
    {
      SeparatorMoved(nodes, nodes1, a, b, c, gone, more, k);
    }
  }

  lemma SeparatorMoved(nodes: map<NodeId, BNode>, nodes1: map<NodeId, BNode>, a: NodeId, b: NodeId, c: NodeId,
                       gone: set<Key>, more: set<Key>, k: Key)
    requires forall n :: n != a && n != b && n != c ==> SeparatorsAt(nodes1, n) == SeparatorsAt(nodes, n)
    requires forall n :: n != a && n != b && n != c ==> SeparatorsAt(nodes, n) !! gone
    requires SeparatorsAt(nodes1, a) + SeparatorsAt(nodes1, b) + SeparatorsAt(nodes1, c) ==
             SeparatorsAt(nodes, a) + SeparatorsAt(nodes, b) + SeparatorsAt(nodes, c) - gone + more
    ensures k in Separators(nodes1) <==> k in Separators(nodes) - gone + more
  {
    hide Members, Separators, SeparatorsAt;
    InSeparators(nodes, k);
    InSeparators(nodes1, k);
    var before := SeparatorsAt(nodes, a) + SeparatorsAt(nodes, b) + SeparatorsAt(nodes, c);
    var after := SeparatorsAt(nodes1, a) + SeparatorsAt(nodes1, b) + SeparatorsAt(nodes1, c);
    assert k in after <==> k in before - gone + more;
    if k in Separators(nodes1) && k !in after {
      var n :| k in SeparatorsAt(nodes1, n);
      assert k in SeparatorsAt(nodes, n) && k !in gone;
    }
    if k in Separators(nodes) && k !in before && k !in gone {
      var n :| k in SeparatorsAt(nodes, n);
      assert k in SeparatorsAt(nodes1, n);
    }
  }

  lemma InSeparators(nodes: map<NodeId, BNode>, k: Key)
    ensures k in Separators(nodes) <==> exists n :: k in SeparatorsAt(nodes, n)
  {
    hide Members;
    if n :| k in SeparatorsAt(nodes, n) {
      assert n in nodes;
    }
  }

  /** Changing only leaves, pointers and children. */
  lemma SameSeparators(nodes: map<NodeId, BNode>, nodes1: map<NodeId, BNode>)
    requires forall n :: SeparatorsAt(nodes1, n) == SeparatorsAt(nodes, n)
    ensures Separators(nodes1) == Separators(nodes)
  {
    hide SeparatorsAt;
    SeparatorsMoved(nodes, nodes1, 0, 0, 0, {}, {});
  }

  lemma InsertMembers(s: seq<Key>, i: nat, x: Key)
    requires i <= |s|
    ensures Members(InsertAt(s, i, x)) == Members(s) + {x}
  {
    hide Members;
    MembersOfSum(s[..i], [x]);
    MembersOfSum(s[..i] + [x], s[i..]);
    MembersOfSum(s[..i], s[i..]);
    MembersOfOne(x);
    assert s == s[..i] + s[i..];
  }

  lemma RemoveMembers(s: seq<Key>, i: nat, x: Key)
    requires i < |s|
    ensures Members(s) == Members(RemoveAt(s, i)) + {s[i]}
    ensures Members(s[i := x]) == Members(RemoveAt(s, i)) + {x}
  {
    InsertMembers(RemoveAt(s, i), i, s[i]);
    InsertMembers(RemoveAt(s, i), i, x);
    hide Members;
    assert InsertAt(RemoveAt(s, i), i, s[i]) == s;
    assert InsertAt(RemoveAt(s, i), i, x) == s[i := x];
  }

  lemma LeafSplitSeparators(t: Tree, leaf: NodeId, right: NodeId, t1: Tree)
    requires IsLeafSplit(t, leaf, right, t1)
    ensures Separators(t1.nodes) == Separators(t.nodes)
  {
    hide Members;
    SameSeparators(t.nodes, t1.nodes);
  }

  lemma NewRootSeparators(t: Tree, left: NodeId, separator: Key, right: NodeId, id: NodeId, t1: Tree)
    requires IsNewRoot(t, left, separator, right, id, t1)
    ensures Separators(t1.nodes) == Separators(t.nodes) + {separator}
  {
    hide Members;
    MembersOfOne(separator);
    SeparatorsMoved(t.nodes, t1.nodes, id, id, id, {}, {separator});
  }

  lemma ParentInsertSeparators(t: Tree, left: NodeId, separator: Key, right: NodeId, p: NodeId, index: nat, t1: Tree)
    requires IsParentInsert(t, left, separator, right, p, index, t1) && !t.nodes[p].leaf
    ensures Separators(t1.nodes) == Separators(t.nodes) + {separator}
  {
    hide Members;
    InsertMembers(t.nodes[p].keys, index, separator);
    SeparatorsMoved(t.nodes, t1.nodes, p, p, p, {}, {separator});
  }

  lemma InternalSplitElsewhere(t: Tree, node: NodeId, right: NodeId, t1: Tree, n: NodeId)
    requires IsInternalSplit(t, node, right, t1) && n != node && n != right
    ensures SeparatorsAt(t1.nodes, n) == SeparatorsAt(t.nodes, n)
  {
    hide Members;
  }

  lemma InternalSplitSeparators(t: Tree, node: NodeId, right: NodeId, t1: Tree)
    requires Ok(t, Whole, {node}) && IsInternalSplit(t, node, right, t1)
    ensures Separators(t.nodes) == Separators(t1.nodes) + {t.nodes[node].keys[|t.nodes[node].keys| / 2]}
  {
    SplitInternalNode(t, node, right, t1);
    var keys, mid := t.nodes[node].keys, |t.nodes[node].keys| / 2;
    CutMembers(keys, mid);
    assert SeparatorsAt(t.nodes, right) == {};
    hide Ok, Members, Reparent;
    forall n | n != node && n != right
      ensures SeparatorsAt(t1.nodes, n) == SeparatorsAt(t.nodes, n)
    {
      InternalSplitElsewhere(t, node, right, t1, n);
    }
    hide IsInternalSplit;
    SeparatorsMoved(t1.nodes, t.nodes, node, right, right, {}, {keys[mid]});
  }

  lemma CutMembers(keys: seq<Key>, m: nat)
    requires m < |keys|
    ensures Members(keys[..m]) + {keys[m]} + Members(keys[m + 1..]) == Members(keys)
  {
    hide Members;
    JoinedMembers(keys[..m], keys[m], keys[m + 1..]);
    assert keys[..m] + [keys[m]] + keys[m + 1..] == keys;
  }

  lemma JoinedMembers(ka: seq<Key>, x: Key, kb: seq<Key>)
    ensures Members(ka + [x] + kb) == Members(ka) + {x} + Members(kb)
  {
    hide Members;
    MembersOfSum(ka, [x]);
    MembersOfSum(ka + [x], kb);
    MembersOfOne(x);
  }

  lemma Regroup<T>(a1: set<T>, b1: set<T>, x1: T, a: set<T>, b: set<T>, x: T, rest: set<T>)
    requires a1 + {x1} + b1 == a + {x} + b
    ensures a1 + b1 + (rest + {x1}) == a + b + (rest + {x}) - {} + {}
  {
    assert a1 + b1 + (rest + {x1}) == a1 + {x1} + b1 + rest;
  }

  lemma RecutInternalSeparators(t: Tree, odd: set<NodeId>, p: NodeId, i: nat, a: NodeId, b: NodeId, m: nat, t1: Tree)
    requires Ok(t, Whole, odd) && IsRecut(t, p, i, a, b, m, t1) && !t.nodes[a].leaf
    ensures Separators(t1.nodes) == Separators(t.nodes)
  {
    SiblingFacts(t, odd, p, i, a, b);
    RecutFrame(t, odd, p, i, a, b, m, t1);
    RecutInternalFrame(t, odd, p, i, a, b, m, t1);
    hide Less, Ok, IsRecut, Members;
    var keys := JoinedKeys(t, p, i, a, b);
    CutMembers(keys, m);
    JoinedMembers(t.nodes[a].keys, t.nodes[p].keys[i], t.nodes[b].keys);
    RemoveMembers(t.nodes[p].keys, i, keys[m]);
    var sep, rest := t.nodes[p].keys[i], Members(RemoveAt(t.nodes[p].keys, i));
    Regroup(Members(keys[..m]), Members(keys[m + 1..]), keys[m],
            Members(t.nodes[a].keys), Members(t.nodes[b].keys), sep, rest);
    hide JoinedKeys, RemoveAt;
    SeparatorsMoved(t.nodes, t1.nodes, a, b, p, {}, {});
  }

  lemma RemoveFromSorted(keys: seq<Key>, i: nat, lo: Bound, hi: Bound)
    requires Sorted(keys) && i < |keys|
    ensures Members(RemoveAt(keys, i)) == Members(keys) - {keys[i]}
  {
    hide Less;
    forall j, k | 0 <= j < k < |keys|
      ensures keys[j] != keys[k]
    {
      LessTotal(At(keys[j]), At(keys[j]));
    }
    RemoveAtMembers(keys, i);
  }

  lemma RecutLeafSeparators(t: Tree, odd: set<NodeId>, p: NodeId, i: nat, a: NodeId, b: NodeId, m: nat, t1: Tree)
    requires Ok(t, Whole, odd) && IsRecut(t, p, i, a, b, m, t1) && t.nodes[a].leaf
    ensures m < |JoinedKeys(t, p, i, a, b)|
    ensures Separators(t1.nodes) == Separators(t.nodes) - {t.nodes[p].keys[i]} + {JoinedKeys(t, p, i, a, b)[m]}
  {
    SiblingFacts(t, odd, p, i, a, b);
    RecutFrame(t, odd, p, i, a, b, m, t1);
    assert LinksOk(t, Whole, p) && LinksOk(t, Whole, a);
    forall n | n != p
      ensures t.nodes[p].keys[i] !in SeparatorsAt(t.nodes, n)
    {
      SeparatorIsUnique(t, odd, p, i, n);
    }
    RemoveFromSorted(t.nodes[p].keys, i, Low, High);
    hide Less, Ok, IsRecut, Members, JoinedKeys;
    var key := JoinedKeys(t, p, i, a, b)[m];
    RemoveMembers(t.nodes[p].keys, i, key);
    SeparatorsMoved(t.nodes, t1.nodes, p, a, b, {t.nodes[p].keys[i]}, {key});
  }

  /** After a new cut between two leaves the old separator is no longer there to be stale, and the new one is stored. */
  lemma RecutStale(t: Tree, odd: set<NodeId>, p: NodeId, i: nat, a: NodeId, b: NodeId, m: nat, t1: Tree)
    requires Ok(t, Whole, odd) && IsRecut(t, p, i, a, b, m, t1)
    ensures Stale(t1.nodes) == Stale(t.nodes) - if t.nodes[a].leaf then {t.nodes[p].keys[i]} else {}
  {
    LeafRecutEntries(t, odd, p, i, a, b, m, t1);
    hide Entries;
    if t.nodes[a].leaf {
      RecutLeafSeparators(t, odd, p, i, a, b, m, t1);
      var key := JoinedKeys(t, p, i, a, b)[m];
      SiblingFacts(t, odd, p, i, a, b);
      assert LinksOk(t, Whole, a) && LinksOk(t, Whole, b);
      hide Less, Ok, LinksOk, Stored, Separators, IsRecut;
      if m < |t.nodes[a].keys| {
        assert key == t.nodes[a].keys[m];
        StoredAt(t.nodes, a, key);
      } else {
        assert key == t.nodes[b].keys[m - |t.nodes[a].keys|];
        StoredAt(t.nodes, b, key);
      }
    } else {
      RecutInternalSeparators(t, odd, p, i, a, b, m, t1);
    }
  }

  lemma MergeInternalSeparators(t: Tree, odd: set<NodeId>, p: NodeId, i: nat, a: NodeId, b: NodeId, t1: Tree)
    requires Ok(t, Whole, odd) && IsMerge(t, p, i, a, b, t1) && !t.nodes[a].leaf
    ensures Separators(t1.nodes) == Separators(t.nodes)
  {
    SiblingFacts(t, odd, p, i, a, b);
    MergeFrame(t, odd, p, i, a, b, t1);
    hide Less, Ok, Members;
    JoinedMembers(t.nodes[a].keys, t.nodes[p].keys[i], t.nodes[b].keys);
    RemoveMembers(t.nodes[p].keys, i, t.nodes[p].keys[i]);
    assert t1.nodes[a].keys == JoinedKeys(t, p, i, a, b);
    hide IsMerge;
    SeparatorsMoved(t.nodes, t1.nodes, a, b, p, {}, {});
  }

  lemma MergeLeafSeparators(t: Tree, odd: set<NodeId>, p: NodeId, i: nat, a: NodeId, b: NodeId, t1: Tree)
    requires Ok(t, Whole, odd) && IsMerge(t, p, i, a, b, t1) && t.nodes[a].leaf
    ensures Separators(t1.nodes) == Separators(t.nodes) - {t.nodes[p].keys[i]}
  {
    SiblingFacts(t, odd, p, i, a, b);
    MergeFrame(t, odd, p, i, a, b, t1);
    assert LinksOk(t, Whole, p) && LinksOk(t, Whole, a);
    forall n | n != p
      ensures t.nodes[p].keys[i] !in SeparatorsAt(t.nodes, n)
    {
      SeparatorIsUnique(t, odd, p, i, n);
    }
    RemoveFromSorted(t.nodes[p].keys, i, Low, High);
    hide Less, Ok, IsMerge, Members, JoinedKeys, RemoveAt, LinksOk;
    SeparatorsMoved(t.nodes, t1.nodes, p, a, b, {t.nodes[p].keys[i]}, {});
  }

  lemma MergeStale(t: Tree, odd: set<NodeId>, p: NodeId, i: nat, a: NodeId, b: NodeId, t1: Tree)
    requires Ok(t, Whole, odd) && IsMerge(t, p, i, a, b, t1)
    ensures Stale(t1.nodes) == Stale(t.nodes) - if t.nodes[a].leaf then {t.nodes[p].keys[i]} else {}
  {
    MergeEntries(t, odd, p, i, a, b, t1);
    hide Less, Ok, Entries, Separators;
    if t.nodes[a].leaf {
      MergeLeafSeparators(t, odd, p, i, a, b, t1);
    } else {
      MergeInternalSeparators(t, odd, p, i, a, b, t1);
    }
  }

  lemma CollapseSeparators(t: Tree, c: NodeId, t1: Tree)
    requires c in t.nodes && t.root in t.nodes && t.nodes[t.root].keys == [] && c != t.root
    requires t1 == Tree(t.maxKeys, t.nodes[c := t.nodes[c].(parent := None)] - {t.root}, t.spans - {t.root}, c)
    ensures Separators(t1.nodes) == Separators(t.nodes)
  {
    SameSeparators(t.nodes, t1.nodes);
  }

  // ---------------------------------------------------------------------
  // Stale separators, step by step
  // ---------------------------------------------------------------------

  lemma StoredIsContents(nodes: map<NodeId, BNode>, contents: map<Key, set<DocId>>)
    requires Entries(nodes) == contents.Items
    ensures Stored(nodes) == contents.Keys
  {
    hide Entries;
    forall k | k in contents
      ensures k in Stored(nodes)
    {
      assert (k, contents[k]) in contents.Items;
    }
  }

  /** Only the content of one leaf has changed. */
  ghost predicate IsLeafChange(t: Tree, leaf: NodeId, t1: Tree) {
    && leaf in t.nodes && t.nodes[leaf].leaf && t1.nodes.Keys == t.nodes.Keys && t1.nodes[leaf].leaf
    && t1.root == t.root && t1.maxKeys == t.maxKeys && t1.nodes[leaf].parent == t.nodes[leaf].parent
    && t1.nodes == t.nodes[leaf := t1.nodes[leaf]]
  }

  lemma LeafChangeStale(t: Tree, leaf: NodeId, t1: Tree, contents: map<Key, set<DocId>>,
                        contents1: map<Key, set<DocId>>)
    requires IsLeafChange(t, leaf, t1)
    requires Entries(t.nodes) == contents.Items && Entries(t1.nodes) == contents1.Items
    ensures Stale(t.nodes) == Separators(t.nodes) - contents.Keys
    ensures Stale(t1.nodes) == Separators(t.nodes) - contents1.Keys
  {
    StoredIsContents(t.nodes, contents);
    StoredIsContents(t1.nodes, contents1);
    SameSeparators(t.nodes, t1.nodes);
  }

  /** Filing under a key makes it stored. */
  lemma AddedStale(t: Tree, leaf: NodeId, position: nat, key: Key, docs: set<DocId>, t1: Tree,
                   contents: map<Key, set<DocId>>, contents1: map<Key, set<DocId>>)
    requires IsPostingAdd(t, leaf, position, key, docs, t1) && contents1 == contents[key := docs]
    requires Entries(t.nodes) == contents.Items && Entries(t1.nodes) == contents1.Items
    ensures Stale(t1.nodes) == Stale(t.nodes) - {key}
  {
    assert IsLeafChange(t, leaf, t1);
    hide Entries, Separators, Stored, IsPostingAdd;
    LeafChangeStale(t, leaf, t1, contents, contents1);
    hide Stale;
    assert contents1.Keys == contents.Keys + {key};
  }

  /** Filing more or fewer documents under a stored key changes no separator. */
  lemma ChangedStale(t: Tree, leaf: NodeId, position: nat, key: Key, docs: set<DocId>, t1: Tree,
                     contents: map<Key, set<DocId>>, contents1: map<Key, set<DocId>>)
    requires leaf in t.nodes && t.nodes[leaf].leaf && position < |t.nodes[leaf].values|
    requires t1 == t.(nodes := t.nodes[leaf := t.nodes[leaf].(values := t.nodes[leaf].values[position := docs])])
    requires key in contents && contents1 == contents[key := docs]
    requires Entries(t.nodes) == contents.Items && Entries(t1.nodes) == contents1.Items
    ensures Stale(t1.nodes) == Stale(t.nodes) && key !in Stale(t.nodes)
  {
    assert IsLeafChange(t, leaf, t1);
    hide Entries, Separators, Stored;
    LeafChangeStale(t, leaf, t1, contents, contents1);
    hide Stale;
    assert contents1.Keys == contents.Keys;
  }

  lemma LeafSplitStale(t: Tree, leaf: NodeId, right: NodeId, t1: Tree)
    requires IsLeafSplit(t, leaf, right, t1)
    ensures Stale(t1.nodes) == Stale(t.nodes)
    ensures t.nodes[leaf].keys[(|t.nodes[leaf].keys| + 1) / 2] in Stored(t1.nodes)
  {
    LeafSplitSeparators(t, leaf, right, t1);
    LeafSplitEntries(t, leaf, right, t1);
    hide Entries;
    var mid := (|t.nodes[leaf].keys| + 1) / 2;
    assert t1.nodes[right].keys[0] == t.nodes[leaf].keys[mid];
    StoredAt(t1.nodes, right, t.nodes[leaf].keys[mid]);
  }

  lemma NewRootStale(t: Tree, left: NodeId, separator: Key, right: NodeId, id: NodeId, t1: Tree)
    requires IsNewRoot(t, left, separator, right, id, t1) && Entries(t1.nodes) == Entries(t.nodes)
    ensures Stale(t1.nodes) == Stale(t.nodes) + ({separator} - Stored(t.nodes))
  {
    NewRootSeparators(t, left, separator, right, id, t1);
  }

  lemma ParentInsertStale(t: Tree, left: NodeId, separator: Key, right: NodeId, p: NodeId, index: nat, t1: Tree)
    requires IsParentInsert(t, left, separator, right, p, index, t1) && !t.nodes[p].leaf
    requires Entries(t1.nodes) == Entries(t.nodes)
    ensures Stale(t1.nodes) == Stale(t.nodes) + ({separator} - Stored(t.nodes))
  {
    ParentInsertSeparators(t, left, separator, right, p, index, t1);
  }

  lemma InternalSplitStale(t: Tree, node: NodeId, right: NodeId, t1: Tree)
    requires Ok(t, Whole, {node}) && IsInternalSplit(t, node, right, t1) && Entries(t1.nodes) == Entries(t.nodes)
    ensures Stored(t1.nodes) == Stored(t.nodes)
    ensures var separator := t.nodes[node].keys[|t.nodes[node].keys| / 2];
            Stale(t.nodes) == Stale(t1.nodes) + ({separator} - Stored(t1.nodes))
  {
    InternalSplitSeparators(t, node, right, t1);
  }

  lemma CollapseStale(t: Tree, c: NodeId, t1: Tree)
    requires c in t.nodes && t.root in t.nodes && t.nodes[t.root].keys == [] && c != t.root
    requires t1 == Tree(t.maxKeys, t.nodes[c := t.nodes[c].(parent := None)] - {t.root}, t.spans - {t.root}, c)
    requires Entries(t1.nodes) == Entries(t.nodes)
    ensures Stale(t1.nodes) == Stale(t.nodes)
  {
    CollapseSeparators(t, c, t1);
  }
}
