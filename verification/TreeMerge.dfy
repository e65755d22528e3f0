/** Moving keys between siblings and merging them keeps the tree invariant. */
module TreeMerge {
  import opened Collections
  import opened Keys
  import opened TreeShape

  /** Children `i` and `i + 1` of `p` are `a` and `b`. */
  ghost predicate Siblings(t: Tree, p: NodeId, i: nat, a: NodeId, b: NodeId) {
    && p in t.nodes && i + 1 < |t.nodes[p].children| && i < |t.nodes[p].keys|
    && t.nodes[p].children[i] == a && t.nodes[p].children[i + 1] == b
  }

  lemma SiblingFacts(t: Tree, odd: set<NodeId>, p: NodeId, i: nat, a: NodeId, b: NodeId)
    requires Ok(t, Whole, odd) && Siblings(t, p, i, a, b)
    ensures a in t.nodes && b in t.nodes && a != b && a != p && b != p && a != t.root && b != t.root
    ensures |t.nodes[p].children| == |t.nodes[p].keys| + 1 && !t.nodes[p].leaf
    ensures t.spans[a].hi == At(t.nodes[p].keys[i]) == t.spans[b].lo && t.spans[a].ht == t.spans[b].ht
    ensures t.spans[a].ht + 1 == t.spans[p].ht
    ensures t.nodes[a].parent == Some(p) == t.nodes[b].parent
    ensures Less(t.spans[a].lo, t.spans[a].hi) && Less(t.spans[b].lo, t.spans[b].hi)
    ensures t.nodes[a].leaf == t.nodes[b].leaf
  {
    hide Less;
    assert LinksOk(t, Whole, p) && ChildOk(t, Whole, p, i) && ChildOk(t, Whole, p, i + 1);
    assert LinksOk(t, Whole, a) && LinksOk(t, Whole, b);
    OddMore(t, Whole, odd);
    ChildrenDistinct(t, Whole, p, i, i + 1);
  }

  // ---------------------------------------------------------------------
  // Nodes of one height cover disjoint ranges
  // ---------------------------------------------------------------------

  lemma ChildIndex(t: Tree, odd: set<NodeId>, n: NodeId) returns (p: NodeId, i: nat)
    requires Ok(t, Whole, odd) && n in t.nodes && n != t.root
    ensures p in t.nodes && t.nodes[n].parent == Some(p)
    ensures i < |t.nodes[p].children| == |t.nodes[p].keys| + 1 && t.nodes[p].children[i] == n
    ensures t.spans[p].ht > 0 && t.spans[n] == Slot(t.nodes[p], t.spans[p], i)
    ensures t.spans[p].ht <= t.spans[t.root].ht
    ensures Sorted(t.nodes[p].keys) && InRange(t.nodes[p].keys, t.spans[p].lo, t.spans[p].hi, true)
  {
    hide Less, Sorted, InRange;
    assert LinksOk(t, Whole, n);
    p := t.nodes[n].parent.value;
    i :| 0 <= i < |t.nodes[p].children| && t.nodes[p].children[i] == n;
    assert LinksOk(t, Whole, p) && ChildOk(t, Whole, p, i);
  }

  lemma {:induction false} SpanNonEmpty(t: Tree, odd: set<NodeId>, n: NodeId)
    requires Ok(t, Whole, odd) && n in t.nodes
    ensures Less(t.spans[n].lo, t.spans[n].hi)
    ensures t.spans[n].ht <= t.spans[t.root].ht
    decreases t.spans[t.root].ht - t.spans[n].ht
  {
    if n == t.root {
      assert LinksOk(t, Whole, n);
    } else {
      var p, i := ChildIndex(t, odd, n);
      hide Less;
      if t.nodes[p].keys == [] {
        SpanNonEmpty(t, odd, p);
      }
    }
  }

  lemma InsideParent(t: Tree, odd: set<NodeId>, n: NodeId) returns (p: NodeId, i: nat)
    requires Ok(t, Whole, odd) && n in t.nodes && n != t.root
    ensures p in t.nodes && t.spans[p].ht == t.spans[n].ht + 1 <= t.spans[t.root].ht
    ensures i < |t.nodes[p].children| == |t.nodes[p].keys| + 1 && t.nodes[p].children[i] == n
    ensures t.spans[n] == Slot(t.nodes[p], t.spans[p], i)
    ensures AtMost(t.spans[p].lo, t.spans[n].lo) && AtMost(t.spans[n].hi, t.spans[p].hi)
    ensures Sorted(t.nodes[p].keys)
  {
    p, i := ChildIndex(t, odd, n);
    hide Less;
  }

  /** Two different nodes of the same height cover disjoint key ranges. */
  lemma {:induction false} DisjointSpans(t: Tree, odd: set<NodeId>, n: NodeId, m: NodeId)
    requires Ok(t, Whole, odd) && n in t.nodes && m in t.nodes && n != m && t.spans[n].ht == t.spans[m].ht
    ensures AtMost(t.spans[n].hi, t.spans[m].lo) || AtMost(t.spans[m].hi, t.spans[n].lo)
    decreases t.spans[t.root].ht - t.spans[n].ht
  {
    assert n != t.root && m != t.root by {
      assert LinksOk(t, Whole, n) && LinksOk(t, Whole, m);
    }
    var p, i := InsideParent(t, odd, n);
    var q, j := InsideParent(t, odd, m);
    hide Less, Ok;
    if p != q {
      DisjointSpans(t, odd, p, q);
      var sn, sp, sm, sq := t.spans[n], t.spans[p], t.spans[m], t.spans[q];
      if AtMost(sp.hi, sq.lo) {
        LessTrans(sn.hi, sp.hi, sq.lo);
        LessTrans(sn.hi, sq.lo, sm.lo);
      } else {
        LessTrans(sm.hi, sq.hi, sp.lo);
        LessTrans(sm.hi, sp.lo, sn.lo);
      }
    } else if i < j {
      assert i == j - 1 || Less(At(t.nodes[p].keys[i]), At(t.nodes[p].keys[j - 1]));
    } else {
      assert j == i - 1 || Less(At(t.nodes[p].keys[j]), At(t.nodes[p].keys[i - 1]));
    }
  }

  lemma SameLowSameNode(t: Tree, odd: set<NodeId>, n: NodeId, m: NodeId)
    requires Ok(t, Whole, odd) && n in t.nodes && m in t.nodes && t.spans[n].ht == t.spans[m].ht
    requires t.spans[n].lo == t.spans[m].lo || t.spans[n].hi == t.spans[m].hi
    ensures n == m
  {
    if n != m {
      DisjointSpans(t, odd, n, m);
      SpanNonEmpty(t, odd, n);
      SpanNonEmpty(t, odd, m);
      hide Less, Ok;
      LessTotal(t.spans[n].hi, t.spans[n].lo);
      LessTotal(t.spans[m].hi, t.spans[m].lo);
    }
  }

  /** A leaf followed by a sibling leaf points to it, and no other leaf does. */
  lemma NextSibling(t: Tree, odd: set<NodeId>, p: NodeId, i: nat, a: NodeId, b: NodeId)
    requires Ok(t, Whole, odd) && Siblings(t, p, i, a, b)
    requires a in t.nodes && t.nodes[a].leaf
    ensures t.nodes[a].next == Some(b)
    ensures forall m :: m in t.nodes && t.nodes[m].next == Some(b) ==> m == a
  {
    SiblingFacts(t, odd, p, i, a, b);
    hide Less;
    assert LinksOk(t, Whole, a) && LinksOk(t, Whole, b);
    var x := t.nodes[a].next.value;
    assert LinksOk(t, Whole, x);
    SameLowSameNode(t, odd, x, b);
    forall m | m in t.nodes && t.nodes[m].next == Some(b)
      ensures m == a
    {
      assert LinksOk(t, Whole, m);
      SameLowSameNode(t, odd, m, a);
    }
  }

  // ---------------------------------------------------------------------
  // Cutting two siblings anew
  // ---------------------------------------------------------------------

  lemma ConcatSorted(ka: seq<Key>, kb: seq<Key>, sep: Key)
    requires Sorted(ka) && Sorted(kb)
    requires forall i :: 0 <= i < |ka| ==> Less(At(ka[i]), At(sep))
    requires forall i :: 0 <= i < |kb| ==> AtMost(At(sep), At(kb[i]))
    ensures Sorted(ka + kb)
  {
    hide Less;
    forall i, j | 0 <= i < |ka| && 0 <= j < |kb|
      ensures Less(At(ka[i]), At(kb[j]))
    {
      LessTrans(At(ka[i]), At(sep), At(kb[j]));
    }
  }

  lemma ConcatInRange(ka: seq<Key>, kb: seq<Key>, lo: Bound, sep: Key, hi: Bound, strict: bool)
    requires InRange(ka, lo, At(sep), strict) && InRange(kb, At(sep), hi, strict)
    requires Less(lo, At(sep)) && Less(At(sep), hi)
    ensures InRange(ka + kb, lo, hi, strict)
  {
    hide Less;
    forall i | 0 <= i < |ka|
      ensures Less(At(ka[i]), hi)
    {
      LessTrans(At(ka[i]), At(sep), hi);
    }
    forall j | 0 <= j < |kb|
      ensures Less(lo, At(kb[j]))
    {
      LessTrans(lo, At(sep), At(kb[j]));
    }
  }

  lemma CutKeys(keys: seq<Key>, lo: Bound, hi: Bound, m: nat)
    requires Sorted(keys) && InRange(keys, lo, hi, false) && 0 < m < |keys|
    ensures Sorted(keys[..m]) && InRange(keys[..m], lo, At(keys[m]), false)
    ensures Sorted(keys[m..]) && InRange(keys[m..], At(keys[m]), hi, false)
    ensures Less(lo, At(keys[m])) && Less(At(keys[m]), hi)
  {
    hide Less;
    LessTrans(lo, At(keys[0]), At(keys[m]));
  }

  lemma ReplaceKey(keys: seq<Key>, i: nat, key: Key, lo: Bound, hi: Bound)
    requires Sorted(keys) && InRange(keys, lo, hi, true) && i < |keys|
    requires Less(if i == 0 then lo else At(keys[i - 1]), At(key))
    requires Less(At(key), if i == |keys| - 1 then hi else At(keys[i + 1]))
    ensures Sorted(keys[i := key]) && InRange(keys[i := key], lo, hi, true)
  {
    hide Less;
    forall j | 0 <= j < i
      ensures Less(At(keys[j]), At(key))
    {
      LessTrans(At(keys[j]), At(keys[i - 1]), At(key));
    }
    forall j | i < j < |keys|
      ensures Less(At(key), At(keys[j]))
    {
      LessTrans(At(key), At(keys[i + 1]), At(keys[j]));
    }
    if i > 0 {
      LessTrans(lo, At(keys[i - 1]), At(key));
    }
    if i < |keys| - 1 {
      LessTrans(At(key), At(keys[i + 1]), hi);
    }
  }

  /** Everything two siblings hold, in order; for internal nodes the separator between them is part of it. */
  function JoinedKeys(t: Tree, p: NodeId, i: nat, a: NodeId, b: NodeId): seq<Key>
    requires p in t.nodes && a in t.nodes && b in t.nodes && i < |t.nodes[p].keys|
  {
    t.nodes[a].keys + (if t.nodes[a].leaf then [] else [t.nodes[p].keys[i]]) + t.nodes[b].keys
  }

  /** The parent pointer of `m` once the children `ca` belong to `a` and `cb` to `b`. */
  function ParentAfter(t: Tree, a: NodeId, ca: seq<NodeId>, b: NodeId, cb: seq<NodeId>, m: NodeId): Option<NodeId>
    requires m in t.nodes
  {
    if m in ca then Some(a) else if m in cb then Some(b) else t.nodes[m].parent
  }

  /** What two siblings hold is cut anew at `m`, and the parent's separator follows. */
  ghost predicate IsRecut(t: Tree, p: NodeId, i: nat, a: NodeId, b: NodeId, m: nat, t1: Tree) {
    && Siblings(t, p, i, a, b) && a in t.nodes && b in t.nodes && a in t.spans && b in t.spans
    && i < |t.nodes[p].keys|
    && t1.maxKeys == t.maxKeys && t1.root == t.root && t1.nodes.Keys == t.nodes.Keys
    && var keys := JoinedKeys(t, p, i, a, b);
       var values, children := t.nodes[a].values + t.nodes[b].values, t.nodes[a].children + t.nodes[b].children;
       var leaf := t.nodes[a].leaf;
       && 0 < m < |keys| && (if leaf then |values| == |keys| else |children| == |keys| + 1)
       && t1.spans == t.spans[a := t.spans[a].(hi := At(keys[m]))][b := t.spans[b].(lo := At(keys[m]))]
       && t1.nodes[p] == t.nodes[p].(keys := t.nodes[p].keys[i := keys[m]])
       && (if leaf then
             && t1.nodes[a] == t.nodes[a].(keys := keys[..m], values := values[..m])
             && t1.nodes[b] == t.nodes[b].(keys := keys[m..], values := values[m..])
           else
             && t1.nodes[a] == t.nodes[a].(keys := keys[..m], children := children[..m + 1])
             && t1.nodes[b] == t.nodes[b].(keys := keys[m + 1..], children := children[m + 1..]))
       && forall n :: n in t.nodes && n != a && n != b && n != p ==>
            && SameButParent(t1.nodes[n], t.nodes[n])
            && t1.nodes[n].parent == ParentAfter(t, a, t1.nodes[a].children, b, t1.nodes[b].children, n)
  }

  /** Both halves have sorted keys in range, and the new separator lies between the two. */
  lemma RecutKeys(t: Tree, odd: set<NodeId>, p: NodeId, i: nat, a: NodeId, b: NodeId, m: nat, t1: Tree)
    requires Ok(t, Whole, odd) && IsRecut(t, p, i, a, b, m, t1)
    ensures t1.nodes.Keys == t1.spans.Keys
    ensures FormOk(t1.nodes[a], t1.spans[a]) && FormOk(t1.nodes[b], t1.spans[b])
    ensures Less(t1.spans[a].lo, t1.spans[a].hi) && Less(t1.spans[b].lo, t1.spans[b].hi)
  {
    SiblingFacts(t, odd, p, i, a, b);
    hide Less;
    assert LinksOk(t, Whole, a) && LinksOk(t, Whole, b);
    var ka, kb, sep := t.nodes[a].keys, t.nodes[b].keys, t.nodes[p].keys[i];
    var lo, hi := t.spans[a].lo, t.spans[b].hi;
    var keys := JoinedKeys(t, p, i, a, b);
    if t.nodes[a].leaf {
      ConcatSorted(ka, kb, sep);
      ConcatInRange(ka, kb, lo, sep, hi, false);
      assert keys == ka + kb;
      CutKeys(keys, lo, hi, m);
    } else {
      JoinKeys(ka, sep, kb, lo, hi);
      assert keys == ka + [sep] + kb;
      SplitKeys(keys, m, lo, hi);
    }
  }

  lemma JoinKeys(ka: seq<Key>, sep: Key, kb: seq<Key>, lo: Bound, hi: Bound)
    requires Sorted(ka) && InRange(ka, lo, At(sep), true) && Sorted(kb) && InRange(kb, At(sep), hi, true)
    requires Less(lo, At(sep)) && Less(At(sep), hi)
    ensures Sorted(ka + [sep] + kb) && InRange(ka + [sep] + kb, lo, hi, true)
  {
    hide Less;
    var sk := [sep] + kb;
    assert ka + [sep] + kb == ka + sk;
    ConcatSorted(ka, sk, sep);
    ConcatInRange(ka, kb, lo, sep, hi, true);
    assert forall j :: 0 <= j < |ka + sk| ==>
             (ka + sk)[j] == if j < |ka| then ka[j] else if j == |ka| then sep else kb[j - |ka| - 1];
    assert forall j :: 0 <= j < |ka + kb| ==> (ka + kb)[j] == if j < |ka| then ka[j] else kb[j - |ka|];
    forall j | 0 <= j < |ka + sk|
      ensures Less(lo, At((ka + sk)[j])) && Less(At((ka + sk)[j]), hi)
    {
      if j < |ka| {
        assert (ka + kb)[j] == ka[j];
      } else if j > |ka| {
        assert (ka + kb)[j - 1] == kb[j - |ka| - 1];
      }
    }
  }

  function SlotIn(keys: seq<Key>, lo: Bound, hi: Bound, i: nat, ht: nat): Span
    requires i <= |keys|
  {
    Span(if i == 0 then lo else At(keys[i - 1]), if i == |keys| then hi else At(keys[i]), ht)
  }

  /** The children of two internal siblings, side by side, cover the joined keys. */
  lemma JoinedChild(t: Tree, odd: set<NodeId>, p: NodeId, i: nat, a: NodeId, b: NodeId, j: nat)
    requires Ok(t, Whole, odd) && Siblings(t, p, i, a, b) && i < |t.nodes[p].keys|
    requires a in t.nodes && b in t.nodes && !t.nodes[a].leaf
    requires j < |t.nodes[a].children + t.nodes[b].children|
    ensures |t.nodes[a].children + t.nodes[b].children| == |JoinedKeys(t, p, i, a, b)| + 1
    ensures t.spans[a].ht > 0
    ensures var c := (t.nodes[a].children + t.nodes[b].children)[j];
            && c in t.nodes && c != a && c != b && c != p && c != t.root
            && t.nodes[c].parent == Some(if j < |t.nodes[a].children| then a else b)
            && t.spans[c] == SlotIn(JoinedKeys(t, p, i, a, b), t.spans[a].lo, t.spans[b].hi, j, t.spans[a].ht - 1)
  {
    SiblingFacts(t, odd, p, i, a, b);
    hide Less, Sorted, InRange;
    assert LinksOk(t, Whole, a) && LinksOk(t, Whole, b);
    var na := |t.nodes[a].children|;
    var c := (t.nodes[a].children + t.nodes[b].children)[j];
    if j < na {
      assert ChildOk(t, Whole, a, j);
    } else {
      assert ChildOk(t, Whole, b, j - na);
    }
    assert LinksOk(t, Whole, c);
  }

  lemma JoinedDistinct(t: Tree, odd: set<NodeId>, p: NodeId, i: nat, a: NodeId, b: NodeId, j: nat, k: nat)
    requires Ok(t, Whole, odd) && Siblings(t, p, i, a, b) && i < |t.nodes[p].keys|
    requires a in t.nodes && b in t.nodes && !t.nodes[a].leaf
    requires j < k < |t.nodes[a].children + t.nodes[b].children|
    ensures (t.nodes[a].children + t.nodes[b].children)[j] != (t.nodes[a].children + t.nodes[b].children)[k]
  {
    hide Less;
    JoinedChild(t, odd, p, i, a, b, j);
    JoinedChild(t, odd, p, i, a, b, k);
    SiblingFacts(t, odd, p, i, a, b);
    OddMore(t, Whole, odd);
    var na := |t.nodes[a].children|;
    if k < na {
      ChildrenDistinct(t, Whole, a, j, k);
    } else if j >= na {
      ChildrenDistinct(t, Whole, b, j - na, k - na);
    }
  }

  lemma RecutFrame(t: Tree, odd: set<NodeId>, p: NodeId, i: nat, a: NodeId, b: NodeId, m: nat, t1: Tree)
    requires Ok(t, Whole, odd) && IsRecut(t, p, i, a, b, m, t1)
    ensures Siblings(t, p, i, a, b)
    ensures t1.maxKeys == t.maxKeys && t1.root == t.root && t1.nodes.Keys == t.nodes.Keys == t1.spans.Keys
    ensures {a, b, p} <= t.nodes.Keys && |t1.nodes[p].keys| == |t.nodes[p].keys| && t1.nodes[p].leaf == t.nodes[p].leaf
    ensures i < |t.nodes[p].keys| && t1.nodes[a].leaf == t.nodes[a].leaf && t1.nodes[b].leaf == t.nodes[b].leaf
    ensures m < |JoinedKeys(t, p, i, a, b)|
    ensures var key := JoinedKeys(t, p, i, a, b)[m];
            && t1.spans == t.spans[a := t.spans[a].(hi := At(key))][b := t.spans[b].(lo := At(key))]
            && t1.nodes[p] == t.nodes[p].(keys := t.nodes[p].keys[i := key])
    ensures forall n :: n in t.nodes && n != a && n != b && n != p ==> SameButParent(t1.nodes[n], t.nodes[n])
  {
    SiblingFacts(t, odd, p, i, a, b);
    hide Less, JoinedKeys, LinksOk;
  }

  /** How the joined children and keys of internal siblings are shared out. */
  lemma RecutInternalFrame(t: Tree, odd: set<NodeId>, p: NodeId, i: nat, a: NodeId, b: NodeId, m: nat, t1: Tree)
    requires Ok(t, Whole, odd) && IsRecut(t, p, i, a, b, m, t1) && !t.nodes[a].leaf
    ensures |t.nodes[a].children + t.nodes[b].children| == |JoinedKeys(t, p, i, a, b)| + 1
    ensures t1.nodes[a].keys == JoinedKeys(t, p, i, a, b)[..m] && t1.nodes[b].keys == JoinedKeys(t, p, i, a, b)[m + 1..]
    ensures t1.nodes[a].children == (t.nodes[a].children + t.nodes[b].children)[..m + 1]
    ensures t1.nodes[b].children == (t.nodes[a].children + t.nodes[b].children)[m + 1..]
  {
    hide Less, JoinedKeys, LinksOk;
  }

  /** A node changes parents only by moving from one of the two siblings to the other. */
  lemma RecutMoves(t: Tree, odd: set<NodeId>, p: NodeId, i: nat, a: NodeId, b: NodeId, m: nat, t1: Tree, n: NodeId)
    requires Ok(t, Whole, odd) && IsRecut(t, p, i, a, b, m, t1) && n in t.nodes
    ensures t.nodes[n].parent == Some(a) || t.nodes[n].parent == Some(b) ==>
              (t1.nodes[n].parent == Some(a) && n in t1.nodes[a].children) ||
              (t1.nodes[n].parent == Some(b) && n in t1.nodes[b].children)
    ensures t.nodes[n].parent != Some(a) && t.nodes[n].parent != Some(b) ==> t1.nodes[n].parent == t.nodes[n].parent
  {
    SiblingFacts(t, odd, p, i, a, b);
    OddMore(t, Whole, odd);
    ParentOfChild(t, a, n);
    ParentOfChild(t, b, n);
    ChildFacts(t, Whole, a);
    ChildFacts(t, Whole, b);
    assert LinksOk(t, Whole, a) && LinksOk(t, Whole, b) && LinksOk(t, Whole, p);
    hide Less, Sorted, InRange, Ok;
    var ca, cb := t1.nodes[a].children, t1.nodes[b].children;
    if t.nodes[a].leaf {
      assert ca == [] && cb == [];
    } else {
      assert t.nodes[a].children + t.nodes[b].children == ca + cb;
      assert n in t.nodes[a].children + t.nodes[b].children <==> n in t.nodes[a].children || n in t.nodes[b].children;
      assert n in ca + cb <==> n in ca || n in cb;
    }
  }

  lemma RecutApart(t: Tree, odd: set<NodeId>, p: NodeId, i: nat, a: NodeId, b: NodeId, m: nat, t1: Tree, j: nat)
    requires Ok(t, Whole, odd) && IsRecut(t, p, i, a, b, m, t1) && !t.nodes[a].leaf
    requires j < |t1.nodes[b].children|
    ensures t1.nodes[b].children[j] !in t1.nodes[a].children
  {
    hide Less, Ok, JoinedKeys;
    var c := t1.nodes[b].children[j];
    forall k | 0 <= k < |t1.nodes[a].children|
      ensures t1.nodes[a].children[k] != c
    {
      JoinedDistinct(t, odd, p, i, a, b, k, m + 1 + j);
    }
  }

  lemma RecutLeftChild(t: Tree, odd: set<NodeId>, p: NodeId, i: nat, a: NodeId, b: NodeId, m: nat, t1: Tree, j: nat)
    requires Ok(t, Whole, odd) && IsRecut(t, p, i, a, b, m, t1) && !t.nodes[a].leaf
    requires j < |t1.nodes[a].children| <= |t1.nodes[a].keys| + 1 && t1.spans[a].ht > 0
    ensures ChildOk(t1, Whole, a, j)
  {
    RecutFrame(t, odd, p, i, a, b, m, t1);
    RecutInternalFrame(t, odd, p, i, a, b, m, t1);
    JoinedChild(t, odd, p, i, a, b, j);
    var c := t1.nodes[a].children[j];
    forall k | 0 <= k < |t1.nodes[b].children|
      ensures t1.nodes[b].children[k] != c
    {
      RecutApart(t, odd, p, i, a, b, m, t1, k);
    }
    RecutMoves(t, odd, p, i, a, b, m, t1, c);
    hide Less, Ok, IsRecut, JoinedKeys;
  }

  lemma RecutRightChild(t: Tree, odd: set<NodeId>, p: NodeId, i: nat, a: NodeId, b: NodeId, m: nat, t1: Tree, j: nat)
    requires Ok(t, Whole, odd) && IsRecut(t, p, i, a, b, m, t1) && !t.nodes[a].leaf
    requires j < |t1.nodes[b].children| <= |t1.nodes[b].keys| + 1 && t1.spans[b].ht > 0
    ensures ChildOk(t1, Whole, b, j)
  {
    hide Less, Ok, IsRecut, JoinedKeys, LinksOk;
    RecutFrame(t, odd, p, i, a, b, m, t1);
    RecutInternalFrame(t, odd, p, i, a, b, m, t1);
    JoinedChild(t, odd, p, i, a, b, m + 1 + j);
    SiblingFacts(t, odd, p, i, a, b);
    RecutApart(t, odd, p, i, a, b, m, t1, j);
    RecutMoves(t, odd, p, i, a, b, m, t1, t1.nodes[b].children[j]);
  }

  lemma RecutHalves(t: Tree, odd: set<NodeId>, p: NodeId, i: nat, a: NodeId, b: NodeId, m: nat, t1: Tree)
    requires Ok(t, Whole, odd) && IsRecut(t, p, i, a, b, m, t1)
    ensures t1.nodes.Keys == t1.spans.Keys
    ensures LinksOk(t1, Whole, a) && LinksOk(t1, Whole, b)
  {
    RecutKeys(t, odd, p, i, a, b, m, t1);
    SiblingFacts(t, odd, p, i, a, b);
    assert LinksOk(t, Whole, a) && LinksOk(t, Whole, b);
    if t.nodes[a].leaf {
      NextSibling(t, odd, p, i, a, b);
    } else {
      forall j | 0 <= j < |t1.nodes[a].children|
        ensures ChildOk(t1, Whole, a, j)
      {
        RecutLeftChild(t, odd, p, i, a, b, m, t1, j);
      }
      forall j | 0 <= j < |t1.nodes[b].children|
        ensures ChildOk(t1, Whole, b, j)
      {
        RecutRightChild(t, odd, p, i, a, b, m, t1, j);
      }
    }
    if t.nodes[b].next.Some? {
      assert t.nodes[b].next.value != b;
    }
    hide Less, Sorted, InRange, Ok, JoinedKeys;
  }

  /** Replacing separator `i` moves the border between the slots on either side of it. */
  lemma SlotAfterReplace(n: BNode, s: Span, i: nat, j: nat, key: Key)
    requires s.ht > 0 && i < |n.keys| && j <= |n.keys|
    ensures Slot(n.(keys := n.keys[i := key]), s, j) ==
            if j == i then Slot(n, s, i).(hi := At(key))
            else if j == i + 1 then Slot(n, s, i + 1).(lo := At(key))
            else Slot(n, s, j)
  {
  }

  lemma ChildIsOk(t: Tree, odd: set<NodeId>, p: NodeId, j: nat)
    requires Ok(t, Whole, odd) && p in t.nodes && j < |t.nodes[p].children|
    ensures p in t.spans && t.spans[p].ht > 0 && |t.nodes[p].children| == |t.nodes[p].keys| + 1
    ensures ChildOk(t, Whole, p, j)
  {
    hide Less;
    assert LinksOk(t, Whole, p);
  }

  lemma RecutParentChild(t: Tree, odd: set<NodeId>, p: NodeId, i: nat, a: NodeId, b: NodeId, m: nat, t1: Tree, j: nat)
    requires Ok(t, Whole, odd) && IsRecut(t, p, i, a, b, m, t1)
    requires p in t1.nodes && p in t1.spans && t1.spans[p].ht > 0
    requires j < |t1.nodes[p].children| <= |t1.nodes[p].keys| + 1
    ensures ChildOk(t1, Whole, p, j)
  {
    hide Less, Ok, IsRecut, JoinedKeys, Slot;
    RecutFrame(t, odd, p, i, a, b, m, t1);
    SiblingFacts(t, odd, p, i, a, b);
    var c := t.nodes[p].children[j];
    assert ChildOk(t, Whole, p, j) by {
      ChildIsOk(t, odd, p, j);
    }
    OddMore(t, Whole, odd);
    if j != i && j != i + 1 {
      ChildrenDistinct(t, Whole, p, i, j);
      ChildrenDistinct(t, Whole, p, i + 1, j);
    }
    RecutMoves(t, odd, p, i, a, b, m, t1, c);
    SlotAfterReplace(t.nodes[p], t.spans[p], i, j, JoinedKeys(t, p, i, a, b)[m]);
  }

  lemma RecutParentForm(t: Tree, odd: set<NodeId>, p: NodeId, i: nat, a: NodeId, b: NodeId, m: nat, t1: Tree)
    requires Ok(t, Whole, odd) && IsRecut(t, p, i, a, b, m, t1)
    ensures t1.nodes.Keys == t1.spans.Keys && t1.root in t1.nodes
    ensures FormOk(t1.nodes[p], t1.spans[p]) && UpOk(t1, Whole, p) && NextOk(t1, p)
  {
    RecutKeys(t, odd, p, i, a, b, m, t1);
    RecutFrame(t, odd, p, i, a, b, m, t1);
    SiblingFacts(t, odd, p, i, a, b);
    assert LinksOk(t, Whole, p) && ChildOk(t, Whole, p, i) && ChildOk(t, Whole, p, i + 1);
    RecutMoves(t, odd, p, i, a, b, m, t1, p);
    if p != t.root {
      var q := t.nodes[p].parent.value;
      OddMore(t, Whole, odd);
      ParentOfChild(t, q, p);
      ChildFacts(t, Whole, q);
    }
    hide Less, Ok, IsRecut, JoinedKeys, LinksOk;
    ReplaceKey(t.nodes[p].keys, i, JoinedKeys(t, p, i, a, b)[m], t.spans[p].lo, t.spans[p].hi);
    hide Sorted, InRange;
  }

  lemma RecutParent(t: Tree, odd: set<NodeId>, p: NodeId, i: nat, a: NodeId, b: NodeId, m: nat, t1: Tree)
    requires Ok(t, Whole, odd) && IsRecut(t, p, i, a, b, m, t1)
    ensures t1.nodes.Keys == t1.spans.Keys
    ensures LinksOk(t1, Whole, p)
  {
    RecutParentForm(t, odd, p, i, a, b, m, t1);
    hide Less, Ok, IsRecut, FormOk, UpOk, NextOk, ChildOk;
    RecutFrame(t, odd, p, i, a, b, m, t1);
    SiblingFacts(t, odd, p, i, a, b);
    forall j | 0 <= j < |t1.nodes[p].children|
      ensures ChildOk(t1, Whole, p, j)
    {
      RecutParentChild(t, odd, p, i, a, b, m, t1, j);
    }
  }

  lemma RecutOtherChildren(t: Tree, odd: set<NodeId>, p: NodeId, i: nat, a: NodeId, b: NodeId, m: nat, t1: Tree,
                           n: NodeId)
    requires Ok(t, Whole, odd) && IsRecut(t, p, i, a, b, m, t1) && n in t.nodes && n != a && n != b && n != p
    ensures n in t1.nodes && n in t1.spans && t1.nodes[n].children == t.nodes[n].children
    ensures |t1.nodes[n].children| > 0 ==> t1.spans[n].ht > 0 && |t1.nodes[n].children| == |t1.nodes[n].keys| + 1
    ensures forall j :: 0 <= j < |t1.nodes[n].children| ==> ChildOk(t1, Whole, n, j)
  {
    RecutFrame(t, odd, p, i, a, b, m, t1);
    SiblingFacts(t, odd, p, i, a, b);
    assert LinksOk(t, Whole, n);
    OddMore(t, Whole, odd);
    ChildFacts(t, Whole, n);
    hide Less, Sorted, InRange, IsRecut, Ok, JoinedKeys, LinksOk, Slot;
    forall j | 0 <= j < |t1.nodes[n].children|
      ensures ChildOk(t1, Whole, n, j)
    {
      assert ChildOk(t, Whole, n, j);
      assert t.nodes[n].children[j] in t.nodes[n].children;
      RecutMoves(t, odd, p, i, a, b, m, t1, t.nodes[n].children[j]);
    }
  }

  lemma RecutOtherNext(t: Tree, odd: set<NodeId>, p: NodeId, i: nat, a: NodeId, b: NodeId, m: nat, t1: Tree, n: NodeId)
    requires Ok(t, Whole, odd) && IsRecut(t, p, i, a, b, m, t1) && n in t.nodes && n != a && n != b && n != p
    ensures n in t1.nodes && n in t1.spans && NextOk(t1, n)
  {
    RecutFrame(t, odd, p, i, a, b, m, t1);
    SiblingFacts(t, odd, p, i, a, b);
    assert LinksOk(t, Whole, n) && LinksOk(t, Whole, a);
    if t.nodes[a].leaf {
      NextSibling(t, odd, p, i, a, b);
    }
    hide Less, Sorted, InRange, IsRecut, Ok, ChildOk, UpOk, Slot, JoinedKeys;
  }

  lemma RecutOther(t: Tree, odd: set<NodeId>, p: NodeId, i: nat, a: NodeId, b: NodeId, m: nat, t1: Tree, n: NodeId)
    requires Ok(t, Whole, odd) && IsRecut(t, p, i, a, b, m, t1) && n in t.nodes && n != a && n != b && n != p
    ensures t1.nodes.Keys == t1.spans.Keys && t1.root in t1.nodes
    ensures LinksOk(t1, Whole, n) && (n !in odd ==> FillOk(t1, n))
  {
    RecutFrame(t, odd, p, i, a, b, m, t1);
    assert LinksOk(t, Whole, n);
    assert n !in odd ==> FillOk(t, n);
    RecutMoves(t, odd, p, i, a, b, m, t1, n);
    RecutOtherChildren(t, odd, p, i, a, b, m, t1, n);
    RecutOtherNext(t, odd, p, i, a, b, m, t1, n);
    RecutOtherUp(t, odd, p, i, a, b, m, t1, n);
    hide Less, Sorted, InRange, IsRecut, Ok, ChildOk, NextOk, UpOk, Slot, Allotted, MinKeys, JoinedKeys;
  }

  lemma RecutOtherUp(t: Tree, odd: set<NodeId>, p: NodeId, i: nat, a: NodeId, b: NodeId, m: nat, t1: Tree, n: NodeId)
    requires Ok(t, Whole, odd) && IsRecut(t, p, i, a, b, m, t1) && n in t.nodes && n != a && n != b && n != p
    ensures n in t1.nodes && n in t1.spans && t1.root in t1.spans && UpOk(t1, Whole, n)
  {
    RecutFrame(t, odd, p, i, a, b, m, t1);
    SiblingFacts(t, odd, p, i, a, b);
    assert LinksOk(t, Whole, n);
    RecutMoves(t, odd, p, i, a, b, m, t1, n);
    hide Less, Sorted, InRange, IsRecut, Ok, ChildOk, NextOk, FormOk, Slot, JoinedKeys;
  }

  lemma RecutOk(t: Tree, odd: set<NodeId>, p: NodeId, i: nat, a: NodeId, b: NodeId, m: nat, t1: Tree)
    requires Ok(t, Whole, odd) && IsRecut(t, p, i, a, b, m, t1)
    ensures Ok(t1, Whole, odd + {a, b})
  {
    hide Less, JoinedKeys, LinksOk, IsRecut;
    RecutFrame(t, odd, p, i, a, b, m, t1);
    RecutHalves(t, odd, p, i, a, b, m, t1);
    RecutParent(t, odd, p, i, a, b, m, t1);
    forall n | n in t1.nodes && n != a && n != b && n != p
      ensures LinksOk(t1, Whole, n) && (n !in odd ==> FillOk(t1, n))
    {
      RecutOther(t, odd, p, i, a, b, m, t1, n);
    }
    assert p !in odd ==> FillOk(t, p);
  }

  // ---------------------------------------------------------------------
  // Merging two siblings
  // ---------------------------------------------------------------------

  /** `b` is emptied into its left sibling `a` and dropped, together with the separator between them. */
  ghost predicate IsMerge(t: Tree, p: NodeId, i: nat, a: NodeId, b: NodeId, t1: Tree) {
    && Siblings(t, p, i, a, b) && a in t.nodes && b in t.nodes && a in t.spans && b in t.spans
    && i < |t.nodes[p].keys| && a != b && p != b && a != p
    && t1.maxKeys == t.maxKeys && t1.root == t.root && t1.nodes.Keys == t.nodes.Keys - {b}
    && t1.spans == t.spans[a := t.spans[a].(hi := t.spans[b].hi)] - {b}
    && t1.nodes[p] == t.nodes[p].(keys := RemoveAt(t.nodes[p].keys, i),
                                  children := RemoveAt(t.nodes[p].children, i + 1))
    && t1.nodes[a] == t.nodes[a].(keys := JoinedKeys(t, p, i, a, b), values := t.nodes[a].values + t.nodes[b].values,
                                  children := t.nodes[a].children + t.nodes[b].children, next := t.nodes[b].next)
    && forall n :: n in t.nodes && n != a && n != b && n != p ==>
         && SameButParent(t1.nodes[n], t.nodes[n])
         && t1.nodes[n].parent == if n in t.nodes[b].children then Some(a) else t.nodes[n].parent
  }

  lemma MergeKeys(t: Tree, odd: set<NodeId>, p: NodeId, i: nat, a: NodeId, b: NodeId, t1: Tree)
    requires Ok(t, Whole, odd) && IsMerge(t, p, i, a, b, t1)
    ensures t1.nodes.Keys == t1.spans.Keys
    ensures FormOk(t1.nodes[a], t1.spans[a])
  {
    SiblingFacts(t, odd, p, i, a, b);
    hide Less;
    assert LinksOk(t, Whole, a) && LinksOk(t, Whole, b);
    var ka, kb, sep := t.nodes[a].keys, t.nodes[b].keys, t.nodes[p].keys[i];
    var lo, hi := t.spans[a].lo, t.spans[b].hi;
    if t.nodes[a].leaf {
      ConcatSorted(ka, kb, sep);
      ConcatInRange(ka, kb, lo, sep, hi, false);
      assert JoinedKeys(t, p, i, a, b) == ka + kb;
    } else {
      JoinKeys(ka, sep, kb, lo, hi);
      assert JoinedKeys(t, p, i, a, b) == ka + [sep] + kb;
    }
  }

  /** A node changes parents only by moving from `b` to `a`. */
  lemma MergeMoves(t: Tree, odd: set<NodeId>, p: NodeId, i: nat, a: NodeId, b: NodeId, t1: Tree, n: NodeId)
    requires Ok(t, Whole, odd) && IsMerge(t, p, i, a, b, t1) && n in t.nodes && n != b
    ensures n in t1.nodes
    ensures t1.nodes[n].parent == if t.nodes[n].parent == Some(b) then Some(a) else t.nodes[n].parent
    ensures t.nodes[n].parent == Some(a) || t.nodes[n].parent == Some(b) ==> n in t1.nodes[a].children
    ensures t.nodes[n].parent == Some(p) ==> n in t1.nodes[p].children
  {
    SiblingFacts(t, odd, p, i, a, b);
    OddMore(t, Whole, odd);
    ParentOfChild(t, a, n);
    ParentOfChild(t, b, n);
    ParentOfChild(t, p, n);
    ChildFacts(t, Whole, b);
    hide Less, Ok, JoinedKeys;
    if n in t.nodes[p].children {
      var j :| 0 <= j < |t.nodes[p].children| && t.nodes[p].children[j] == n;
      assert RemoveAt(t.nodes[p].children, i + 1)[if j <= i then j else j - 1] == n;
    }
  }

  lemma MergeLeft(t: Tree, odd: set<NodeId>, p: NodeId, i: nat, a: NodeId, b: NodeId, t1: Tree)
    requires Ok(t, Whole, odd) && IsMerge(t, p, i, a, b, t1)
    ensures t1.nodes.Keys == t1.spans.Keys && t1.root in t1.nodes
    ensures LinksOk(t1, Whole, a)
  {
    hide Less, Sorted, InRange, JoinedKeys;
    MergeKeys(t, odd, p, i, a, b, t1);
    SiblingFacts(t, odd, p, i, a, b);
    MergeMoves(t, odd, p, i, a, b, t1, a);
    assert LinksOk(t, Whole, a) && LinksOk(t, Whole, b);
    if !t.nodes[a].leaf {
      forall j | 0 <= j < |t1.nodes[a].children|
        ensures ChildOk(t1, Whole, a, j)
      {
        JoinedChild(t, odd, p, i, a, b, j);
        MergeMoves(t, odd, p, i, a, b, t1, t1.nodes[a].children[j]);
      }
    } else {
      NextSibling(t, odd, p, i, a, b);
      SpanNonEmpty(t, odd, b);
      LessTotal(t.spans[b].lo, t.spans[b].hi);
    }
  }

  lemma RemoveKey(keys: seq<Key>, i: nat, lo: Bound, hi: Bound)
    requires Sorted(keys) && InRange(keys, lo, hi, true) && i < |keys|
    ensures Sorted(RemoveAt(keys, i)) && InRange(RemoveAt(keys, i), lo, hi, true)
  {
    hide Less;
    assert forall j :: 0 <= j < |keys| - 1 ==> RemoveAt(keys, i)[j] == keys[if j < i then j else j + 1];
  }

  lemma MergeFrame(t: Tree, odd: set<NodeId>, p: NodeId, i: nat, a: NodeId, b: NodeId, t1: Tree)
    requires Ok(t, Whole, odd) && IsMerge(t, p, i, a, b, t1)
    ensures {a, b, p} <= t.nodes.Keys == t.spans.Keys && i < |t.nodes[p].keys|
    ensures |t.nodes[p].children| == |t.nodes[p].keys| + 1
    ensures t1.nodes.Keys == t1.spans.Keys == t.nodes.Keys - {b}
    ensures t.spans[p].ht > 0 && t1.root == t.root && t1.maxKeys == t.maxKeys
    ensures forall n :: n in t1.nodes ==> t1.spans[n] == if n == a then t.spans[a].(hi := t.spans[b].hi) else t.spans[n]
    ensures t1.nodes[p] ==
              t.nodes[p].(keys := RemoveAt(t.nodes[p].keys, i), children := RemoveAt(t.nodes[p].children, i + 1))
    ensures forall n :: n in t1.nodes && n != a && n != p ==> SameButParent(t1.nodes[n], t.nodes[n])
    ensures t1.nodes[a].leaf == t.nodes[a].leaf && t1.nodes[a].parent == t.nodes[a].parent
  {
    SiblingFacts(t, odd, p, i, a, b);
    hide Less, Ok, JoinedKeys;
  }

  /** Removing separator `i` joins the slots on either side of it. */
  lemma SlotAfterRemove(n: BNode, s: Span, i: nat, j: nat)
    requires !n.leaf && s.ht > 0 && i < |n.keys| && j < |n.keys| && |n.children| == |n.keys| + 1
    ensures var n1 := n.(keys := RemoveAt(n.keys, i), children := RemoveAt(n.children, i + 1));
            && n1.children[j] == n.children[if j <= i then j else j + 1]
            && Slot(n1, s, j) == if j < i then Slot(n, s, j)
                                 else if j == i then Slot(n, s, i).(hi := Slot(n, s, i + 1).hi)
                                 else Slot(n, s, j + 1)
  {
  }

  lemma MergeParentChild(t: Tree, odd: set<NodeId>, p: NodeId, i: nat, a: NodeId, b: NodeId, t1: Tree, j: nat)
    requires Ok(t, Whole, odd) && IsMerge(t, p, i, a, b, t1)
    requires p in t1.spans && t1.spans[p].ht > 0 && j < |t1.nodes[p].children| <= |t1.nodes[p].keys| + 1
    ensures ChildOk(t1, Whole, p, j)
  {
    MergeFrame(t, odd, p, i, a, b, t1);
    SiblingFacts(t, odd, p, i, a, b);
    var k := if j <= i then j else j + 1;
    assert ChildOk(t, Whole, p, k) && ChildOk(t, Whole, p, i + 1) by {
      assert LinksOk(t, Whole, p);
    }
    OddMore(t, Whole, odd);
    if k != i {
      ChildrenDistinct(t, Whole, p, i, k);
      ChildrenDistinct(t, Whole, p, i + 1, k);
    }
    MergeMoves(t, odd, p, i, a, b, t1, t.nodes[p].children[k]);
    SlotAfterRemove(t.nodes[p], t.spans[p], i, j);
    hide Less, Ok, IsMerge, LinksOk, RemoveAt, Slot;
  }

  lemma MergeParent(t: Tree, odd: set<NodeId>, p: NodeId, i: nat, a: NodeId, b: NodeId, t1: Tree)
    requires Ok(t, Whole, odd) && IsMerge(t, p, i, a, b, t1)
    ensures t1.nodes.Keys == t1.spans.Keys && t1.root in t1.nodes
    ensures LinksOk(t1, Whole, p)
  {
    SiblingFacts(t, odd, p, i, a, b);
    assert LinksOk(t, Whole, p);
    RemoveKey(t.nodes[p].keys, i, t.spans[p].lo, t.spans[p].hi);
    MergeMoves(t, odd, p, i, a, b, t1, p);
    if p != t.root {
      var q := t.nodes[p].parent.value;
      OddMore(t, Whole, odd);
      ParentOfChild(t, q, p);
      ChildFacts(t, Whole, q);
    }
    hide Less, Sorted, InRange, JoinedKeys;
    forall j | 0 <= j < |t1.nodes[p].children|
      ensures ChildOk(t1, Whole, p, j)
    {
      MergeParentChild(t, odd, p, i, a, b, t1, j);
    }
  }

  lemma MergeOtherChildren(t: Tree, odd: set<NodeId>, p: NodeId, i: nat, a: NodeId, b: NodeId, t1: Tree, n: NodeId)
    requires Ok(t, Whole, odd) && IsMerge(t, p, i, a, b, t1) && n in t.nodes && n != a && n != b && n != p
    ensures n in t1.nodes && n in t1.spans && t1.nodes[n].children == t.nodes[n].children
    ensures |t1.nodes[n].children| > 0 ==> t1.spans[n].ht > 0 && |t1.nodes[n].children| == |t1.nodes[n].keys| + 1
    ensures forall j :: 0 <= j < |t1.nodes[n].children| ==> ChildOk(t1, Whole, n, j)
  {
    MergeFrame(t, odd, p, i, a, b, t1);
    SiblingFacts(t, odd, p, i, a, b);
    assert LinksOk(t, Whole, n);
    OddMore(t, Whole, odd);
    ChildFacts(t, Whole, n);
    hide Less, Sorted, InRange, IsMerge, Ok;
    forall j | 0 <= j < |t1.nodes[n].children|
      ensures ChildOk(t1, Whole, n, j)
    {
      assert ChildOk(t, Whole, n, j);
      assert t.nodes[n].children[j] in t.nodes[n].children;
      MergeMoves(t, odd, p, i, a, b, t1, t.nodes[n].children[j]);
    }
  }

  lemma MergeOtherNext(t: Tree, odd: set<NodeId>, p: NodeId, i: nat, a: NodeId, b: NodeId, t1: Tree, n: NodeId)
    requires Ok(t, Whole, odd) && IsMerge(t, p, i, a, b, t1) && n in t.nodes && n != a && n != b && n != p
    ensures n in t1.nodes && n in t1.spans && NextOk(t1, n)
  {
    MergeFrame(t, odd, p, i, a, b, t1);
    SiblingFacts(t, odd, p, i, a, b);
    assert LinksOk(t, Whole, n);
    if t.nodes[a].leaf {
      NextSibling(t, odd, p, i, a, b);
    }
    hide Less, Sorted, InRange, IsMerge, Ok, ChildOk, UpOk, Slot;
  }

  lemma MergeOther(t: Tree, odd: set<NodeId>, p: NodeId, i: nat, a: NodeId, b: NodeId, t1: Tree, n: NodeId)
    requires Ok(t, Whole, odd) && IsMerge(t, p, i, a, b, t1) && n in t.nodes && n != a && n != b && n != p
    ensures t1.nodes.Keys == t1.spans.Keys && t1.root in t1.nodes
    ensures LinksOk(t1, Whole, n) && (n !in odd ==> FillOk(t1, n))
  {
    MergeFrame(t, odd, p, i, a, b, t1);
    SiblingFacts(t, odd, p, i, a, b);
    assert LinksOk(t, Whole, n);
    assert n !in odd ==> FillOk(t, n);
    MergeMoves(t, odd, p, i, a, b, t1, n);
    MergeOtherChildren(t, odd, p, i, a, b, t1, n);
    MergeOtherNext(t, odd, p, i, a, b, t1, n);
    hide Less, Sorted, InRange, IsMerge, Ok, ChildOk, NextOk, RemoveAt, Slot, Allotted, MinKeys;
  }

  lemma MergeOk(t: Tree, odd: set<NodeId>, p: NodeId, i: nat, a: NodeId, b: NodeId, t1: Tree)
    requires Ok(t, Whole, odd) && IsMerge(t, p, i, a, b, t1)
    ensures Ok(t1, Whole, odd + {a, p})
  {
    SiblingFacts(t, odd, p, i, a, b);
    hide Less, JoinedKeys, LinksOk;
    MergeLeft(t, odd, p, i, a, b, t1);
    MergeParent(t, odd, p, i, a, b, t1);
    forall n | n in t1.nodes && n != a && n != p
      ensures LinksOk(t1, Whole, n) && (n !in odd ==> FillOk(t1, n))
    {
      MergeOther(t, odd, p, i, a, b, t1, n);
    }
  }

  // ---------------------------------------------------------------------
  // Losing a level, and changing one leaf
  // ---------------------------------------------------------------------

  /** The only child of the root takes its place. */
  lemma CollapseOk(t: Tree, odd: set<NodeId>, c: NodeId, t1: Tree)
    requires Ok(t, Whole, odd) && t.nodes[t.root].children == [c] && c in t.nodes && c != t.root
    requires t1 == Tree(t.maxKeys, t.nodes[c := t.nodes[c].(parent := None)] - {t.root}, t.spans - {t.root}, c)
    ensures Ok(t1, Whole, odd + {c})
  {
    OddMore(t, Whole, odd);
    ChildFacts(t, Whole, t.root);
    assert LinksOk(t, Whole, t.root) && ChildOk(t, Whole, t.root, 0);
    forall n | n in t1.nodes
      ensures LinksOk(t1, Whole, n) && (n !in odd && n != c ==> FillOk(t1, n))
    {
      CollapseNode(t, odd, c, t1, n);
    }
    hide LinksOk, FillOk;
  }

  lemma CollapseNode(t: Tree, odd: set<NodeId>, c: NodeId, t1: Tree, n: NodeId)
    requires Ok(t, Whole, odd) && t.nodes[t.root].children == [c] && c in t.nodes && c != t.root
    requires t1 == Tree(t.maxKeys, t.nodes[c := t.nodes[c].(parent := None)] - {t.root}, t.spans - {t.root}, c)
    requires n in t1.nodes
    ensures n in t1.spans && t1.root in t1.spans
    ensures LinksOk(t1, Whole, n) && (n !in odd && n != c ==> FillOk(t1, n))
  {
    OddMore(t, Whole, odd);
    ParentOfChild(t, t.root, n);
    ChildFacts(t, Whole, n);
    assert LinksOk(t, Whole, t.root) && ChildOk(t, Whole, t.root, 0) && LinksOk(t, Whole, n);
    assert n !in odd ==> FillOk(t, n);
    hide Less, Sorted, InRange;
    forall j | 0 <= j < |t1.nodes[n].children|
      ensures ChildOk(t1, Whole, n, j)
    {
      assert ChildOk(t, Whole, n, j);
      assert t.nodes[n].children[j] in t.nodes[n].children;
      assert t.nodes[n].children[j] != t.root by {
        ParentOfChild(t, n, t.nodes[n].children[j]);
      }
    }
    if n != c {
      var q := t.nodes[n].parent.value;
      ChildFacts(t, Whole, q);
      assert LinksOk(t, Whole, q);
    }
  }

  /** A leaf may hold any sorted keys of its own range. */
  lemma LeafContentOk(t: Tree, odd: set<NodeId>, leaf: NodeId, keys: seq<Key>, values: seq<set<DocId>>, t1: Tree)
    requires Ok(t, Whole, odd) && leaf in t.nodes && t.nodes[leaf].leaf
    requires |keys| == |values| && Sorted(keys) && InRange(keys, t.spans[leaf].lo, t.spans[leaf].hi, false)
    requires t1 == t.(nodes := t.nodes[leaf := t.nodes[leaf].(keys := keys, values := values)])
    ensures Ok(t1, Whole, odd + {leaf})
  {
    hide Less, Sorted, InRange;
    forall n | n in t1.nodes
      ensures LinksOk(t1, Whole, n) && (n !in odd && n != leaf ==> FillOk(t1, n))
    {
      assert LinksOk(t, Whole, n) && LinksOk(t, Whole, leaf);
      assert n !in odd ==> FillOk(t, n);
      forall j | 0 <= j < |t1.nodes[n].children|
        ensures ChildOk(t1, Whole, n, j)
      {
        assert ChildOk(t, Whole, n, j);
      }
    }
    hide LinksOk, FillOk;
  }
}
