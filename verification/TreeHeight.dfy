/** A tall tree holds many keys, so the height is logarithmic in the size. */
module TreeHeight {
  import opened Collections
  import opened Keys
  import opened TreeShape
  import opened TreeMerge
  import opened TreeEntries
  import opened TreeScan

  function Pow(b: nat, e: nat): nat {
    if e == 0 then 1 else b * Pow(b, e - 1)
  }

  /** The fewest keys that can be stored under a node of height `ht` other than the root. */
  function MinUnder(maxKeys: nat, ht: nat): nat
    requires maxKeys >= 3
  {
    Pow(InternalMin(maxKeys) + 1, ht) * LeafMin(maxKeys)
  }

  function KeysIn(contents: map<Key, set<DocId>>, lo: Bound, hi: Bound): set<Key> {
    set k | k in contents && AtMost(lo, At(k)) && Less(At(k), hi)
  }

  lemma SplitRange(contents: map<Key, set<DocId>>, lo: Bound, mid: Bound, hi: Bound)
    requires AtMost(lo, mid) && AtMost(mid, hi)
    ensures |KeysIn(contents, lo, hi)| == |KeysIn(contents, lo, mid)| + |KeysIn(contents, mid, hi)|
  {
    hide Less;
    var a, b := KeysIn(contents, lo, mid), KeysIn(contents, mid, hi);
    forall k | k in contents
      ensures k in KeysIn(contents, lo, hi) <==> k in a || k in b
      ensures !(k in a && k in b)
    {
      LessTotal(mid, At(k));
      if k in a {
        LessTrans(At(k), mid, hi);
      }
      if k in b {
        LessTrans(lo, mid, At(k));
      }
    }
    assert KeysIn(contents, lo, hi) == a + b;
    assert a !! b;
  }

  lemma LeafHoldsEnough(t: Tree, n: NodeId, contents: map<Key, set<DocId>>)
    requires Ok(t, Whole, {}) && Entries(t.nodes) == contents.Items
    requires n in t.nodes && t.nodes[n].leaf && n != t.root
    ensures |KeysIn(contents, t.spans[n].lo, t.spans[n].hi)| >= LeafMin(t.maxKeys)
  {
    assert LinksOk(t, Whole, n) && FillOk(t, n);
    hide Less, Ok, LinksOk;
    var keys := t.nodes[n].keys;
    forall i | 0 <= i < |keys|
      ensures keys[i] in contents
    {
      StoredEntry(t, n, (keys[i], t.nodes[n].values[i]), contents);
    }
    KeysDistinct(keys);
    DistinctCount(keys);
    CardinalityMonotone(Members(keys), KeysIn(contents, t.spans[n].lo, t.spans[n].hi));
  }

  lemma KeysDistinct(keys: seq<Key>)
    requires Sorted(keys)
    ensures Distinct(keys)
  {
    hide Less;
    forall i, j | 0 <= i < j < |keys|
      ensures keys[i] != keys[j]
    {
      LessTotal(At(keys[i]), At(keys[i]));
    }
  }

  /** The first `j` children together hold at least `j` times what one of them must. */
  lemma {:induction false} ChildrenHoldEnough(t: Tree, n: NodeId, j: nat, contents: map<Key, set<DocId>>)
    requires Ok(t, Whole, {}) && Entries(t.nodes) == contents.Items
    requires n in t.nodes && !t.nodes[n].leaf && j <= |t.nodes[n].children|
    ensures t.spans[n].ht > 0 && |t.nodes[n].children| == |t.nodes[n].keys| + 1
    ensures var hi := if j == 0 then t.spans[n].lo else Slot(t.nodes[n], t.spans[n], j - 1).hi;
            |KeysIn(contents, t.spans[n].lo, hi)| >= j * MinUnder(t.maxKeys, t.spans[n].ht - 1)
    decreases t.spans[n].ht, j
  {
    assert LinksOk(t, Whole, n);
    if j > 0 {
      var c := t.nodes[n].children[j - 1];
      assert ChildOk(t, Whole, n, j - 1);
      ChildrenHoldEnough(t, n, j - 1, contents);
      SpanNonEmpty(t, {}, c);
      OddMore(t, Whole, {});
      ChildFacts(t, Whole, n);
      ParentOfChild(t, n, c);
      SubtreeHoldsEnough(t, c, contents);
      hide Less, Ok, LinksOk, Pow, MinUnder;
      var s := t.spans[c];
      SlotAfterLow(t, n, j - 1);
      SplitRange(contents, t.spans[n].lo, s.lo, s.hi);
    }
  }

  lemma SlotAfterLow(t: Tree, n: NodeId, i: nat)
    requires Ok(t, Whole, {}) && n in t.nodes && !t.nodes[n].leaf && i < |t.nodes[n].children|
    ensures |t.nodes[n].children| == |t.nodes[n].keys| + 1 && t.spans[n].ht > 0
    ensures AtMost(t.spans[n].lo, Slot(t.nodes[n], t.spans[n], i).lo)
  {
    hide Less;
    assert LinksOk(t, Whole, n);
  }

  lemma {:induction false} SubtreeHoldsEnough(t: Tree, n: NodeId, contents: map<Key, set<DocId>>)
    requires Ok(t, Whole, {}) && Entries(t.nodes) == contents.Items && n in t.nodes && n != t.root
    ensures |KeysIn(contents, t.spans[n].lo, t.spans[n].hi)| >= MinUnder(t.maxKeys, t.spans[n].ht)
    decreases t.spans[n].ht, |t.nodes[n].children| + 1
  {
    assert LinksOk(t, Whole, n) && FillOk(t, n);
    if t.nodes[n].leaf {
      LeafHoldsEnough(t, n, contents);
    } else {
      var children := |t.nodes[n].children|;
      ChildrenHoldEnough(t, n, children, contents);
      var fewest := MinUnder(t.maxKeys, t.spans[n].ht - 1);
      hide Less, Ok, LinksOk;
      MoreChildren(children, InternalMin(t.maxKeys) + 1, fewest);
      PowStep(InternalMin(t.maxKeys) + 1, t.spans[n].ht, LeafMin(t.maxKeys));
    }
  }

  lemma MoreChildren(a: nat, b: nat, c: nat)
    requires a >= b
    ensures a * c >= b * c
  {
  }

  lemma PowStep(b: nat, e: nat, c: nat)
    requires e > 0
    ensures Pow(b, e) * c == b * (Pow(b, e - 1) * c)
  {
  }

  /** A tree of height h >= 2 holds at least 2 * (internalMin + 1)^(h - 2) * leafMin keys. */
  lemma TallTreesAreFull(t: Tree, contents: map<Key, set<DocId>>)
    requires Ok(t, Whole, {}) && Entries(t.nodes) == contents.Items
    ensures var h := t.spans[t.root].ht + 1;
            h >= 2 ==> |contents| >= 2 * (Pow(InternalMin(t.maxKeys) + 1, h - 2) * LeafMin(t.maxKeys))
  {
    var n := t.root;
    assert LinksOk(t, Whole, n) && FillOk(t, n);
    if t.spans[n].ht > 0 {
      var children := |t.nodes[n].children|;
      ChildrenHoldEnough(t, n, children, contents);
      var fewest := MinUnder(t.maxKeys, t.spans[n].ht - 1);
      MoreChildren(children, 2, fewest);
      hide Less, Ok, LinksOk;
      CardinalityMonotone(KeysIn(contents, Low, High), contents.Keys);
    }
  }

  lemma ProductMonotone(a: nat, b: nat, c: nat, d: nat)
    requires a <= b && c <= d
    ensures a * c <= b * d
  {
    MoreChildren(b, a, c);
    assert b * c <= b * d by {
      MoreChildren(d, c, b);
    }
  }

  lemma {:induction false} PowMonotone(a: nat, b: nat, e: nat)
    requires a <= b
    ensures Pow(a, e) <= Pow(b, e)
  {
    if e > 0 {
      PowMonotone(a, b, e - 1);
      ProductMonotone(a, b, Pow(a, e - 1), Pow(b, e - 1));
    }
  }

  /** The height is at most the binary logarithm of the number of keys. */
  lemma HeightIsLogarithmic(t: Tree, contents: map<Key, set<DocId>>)
    requires Ok(t, Whole, {}) && Entries(t.nodes) == contents.Items
    ensures var h := t.spans[t.root].ht + 1;
            h >= 2 ==> Pow(2, h) <= |contents|
  {
    var h := t.spans[t.root].ht + 1;
    TallTreesAreFull(t, contents);
    if h >= 2 {
      var b, fill := InternalMin(t.maxKeys) + 1, LeafMin(t.maxKeys);
      PowMonotone(2, b, h - 2);
      assert Pow(2, h - 1) == 2 * Pow(2, h - 2) && Pow(2, h) == 2 * Pow(2, h - 1);
      assert fill >= 2;
      hide *;
      ProductMonotone(Pow(2, h - 2), Pow(b, h - 2), 2, fill);
    }
  }
}
