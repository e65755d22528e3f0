/** The postings stored in the leaves of an arena, as one set of (keyword, documents) pairs. */
module TreeEntries {
  import opened Keys
  import opened TreeShape
  import opened TreeMerge

  type Entry = (Key, set<DocId>)

  function Pairs(keys: seq<Key>, values: seq<set<DocId>>): set<Entry>
    requires |keys| == |values|
  {
    set i | 0 <= i < |keys| :: (keys[i], values[i])
  }

  function EntriesAt(nodes: map<NodeId, BNode>, n: NodeId): set<Entry> {
    if n in nodes && nodes[n].leaf && |nodes[n].keys| == |nodes[n].values| then Pairs(nodes[n].keys, nodes[n].values)
    else {}
  }

  function Entries(nodes: map<NodeId, BNode>): set<Entry> {
    set n, e | n in nodes && e in EntriesAt(nodes, n) :: e
  }

  lemma PairsOfSum(ka: seq<Key>, va: seq<set<DocId>>, kb: seq<Key>, vb: seq<set<DocId>>)
    requires |ka| == |va| && |kb| == |vb|
    ensures Pairs(ka + kb, va + vb) == Pairs(ka, va) + Pairs(kb, vb)
  {
    forall e | e in Pairs(ka, va) + Pairs(kb, vb)
      ensures e in Pairs(ka + kb, va + vb)
    {
      if e in Pairs(ka, va) {
        var i :| 0 <= i < |ka| && e == (ka[i], va[i]);
        assert (ka + kb)[i] == ka[i] && (va + vb)[i] == va[i];
      } else {
        var i :| 0 <= i < |kb| && e == (kb[i], vb[i]);
        assert (ka + kb)[|ka| + i] == kb[i] && (va + vb)[|ka| + i] == vb[i];
      }
    }
  }

  lemma CutPairs(keys: seq<Key>, values: seq<set<DocId>>, m: nat)
    requires |keys| == |values| && m <= |keys|
    ensures Pairs(keys[..m], values[..m]) + Pairs(keys[m..], values[m..]) == Pairs(keys, values)
  {
    hide Pairs;
    PairsOfSum(keys[..m], values[..m], keys[m..], values[m..]);
    assert keys[..m] + keys[m..] == keys && values[..m] + values[m..] == values;
  }

  /** Moving postings between two leaves leaves the whole set of them as it was. */
  lemma EntriesMoved(nodes: map<NodeId, BNode>, nodes1: map<NodeId, BNode>, a: NodeId, b: NodeId)
    requires forall n :: n != a && n != b ==> EntriesAt(nodes1, n) == EntriesAt(nodes, n)
    requires EntriesAt(nodes1, a) + EntriesAt(nodes1, b) == EntriesAt(nodes, a) + EntriesAt(nodes, b)
    ensures Entries(nodes1) == Entries(nodes)
  {
    EntriesInclude(nodes, nodes1, a, b);
    EntriesInclude(nodes1, nodes, a, b);
  }

  lemma EntriesInclude(nodes: map<NodeId, BNode>, nodes1: map<NodeId, BNode>, a: NodeId, b: NodeId)
    requires forall n :: n != a && n != b ==> EntriesAt(nodes, n) <= EntriesAt(nodes1, n)
    requires EntriesAt(nodes, a) + EntriesAt(nodes, b) <= EntriesAt(nodes1, a) + EntriesAt(nodes1, b)
    ensures Entries(nodes) <= Entries(nodes1)
  {
    hide Pairs;
    forall e | e in Entries(nodes)
      ensures e in Entries(nodes1)
    {
      var n :| n in nodes && e in EntriesAt(nodes, n);
      var m :| m in nodes1 && e in EntriesAt(nodes1, m);
    }
  }

  lemma LeafRecutEntries(t: Tree, odd: set<NodeId>, p: NodeId, i: nat, a: NodeId, b: NodeId, m: nat, t1: Tree)
    requires Ok(t, Whole, odd) && IsRecut(t, p, i, a, b, m, t1)
    ensures Entries(t1.nodes) == Entries(t.nodes)
  {
    SiblingFacts(t, odd, p, i, a, b);
    RecutFrame(t, odd, p, i, a, b, m, t1);
    hide Pairs, Less;
    if t.nodes[a].leaf {
      assert LinksOk(t, Whole, a) && LinksOk(t, Whole, b);
      var keys := t.nodes[a].keys + t.nodes[b].keys;
      var values := t.nodes[a].values + t.nodes[b].values;
      assert JoinedKeys(t, p, i, a, b) == keys;
      PairsOfSum(t.nodes[a].keys, t.nodes[a].values, t.nodes[b].keys, t.nodes[b].values);
      CutPairs(keys, values, m);
    }
    hide Ok, LinksOk, JoinedKeys;
    EntriesMoved(t.nodes, t1.nodes, a, b);
  }

  lemma MergeEntries(t: Tree, odd: set<NodeId>, p: NodeId, i: nat, a: NodeId, b: NodeId, t1: Tree)
    requires Ok(t, Whole, odd) && IsMerge(t, p, i, a, b, t1)
    ensures Entries(t1.nodes) == Entries(t.nodes)
  {
    hide Pairs, Less;
    SiblingFacts(t, odd, p, i, a, b);
    if t.nodes[a].leaf {
      assert LinksOk(t, Whole, a) && LinksOk(t, Whole, b);
      assert JoinedKeys(t, p, i, a, b) == t.nodes[a].keys + t.nodes[b].keys;
      PairsOfSum(t.nodes[a].keys, t.nodes[a].values, t.nodes[b].keys, t.nodes[b].values);
    }
    hide Ok, LinksOk, JoinedKeys;
    EntriesMoved(t.nodes, t1.nodes, a, b);
  }

  lemma LeafSplitEntries(t: Tree, leaf: NodeId, right: NodeId, t1: Tree)
    requires IsLeafSplit(t, leaf, right, t1)
    ensures Entries(t1.nodes) == Entries(t.nodes)
  {
    hide Pairs;
    var n := t.nodes[leaf];
    var mid := (|n.keys| + 1) / 2;
    CutPairs(n.keys, n.values, mid);
    EntriesMoved(t.nodes, t1.nodes, leaf, right);
  }

  /** Changing internal nodes and pointers only. */
  lemma SameEntries(nodes: map<NodeId, BNode>, nodes1: map<NodeId, BNode>)
    requires forall n :: EntriesAt(nodes1, n) == EntriesAt(nodes, n)
    ensures Entries(nodes1) == Entries(nodes)
  {
    hide Pairs;
    EntriesMoved(nodes, nodes1, 0, 0);
  }

  // ---------------------------------------------------------------------
  // Finding a key
  // ---------------------------------------------------------------------

  predicate Covers(s: Span, key: Key) {
    AtMost(s.lo, At(key)) && Less(At(key), s.hi)
  }

  /** Only the leaf whose range covers a key can hold it. */
  lemma CoveringLeafIsUnique(t: Tree, odd: set<NodeId>, leaf: NodeId, m: NodeId, key: Key)
    requires Ok(t, Whole, odd) && leaf in t.nodes && m in t.nodes && t.nodes[leaf].leaf && t.nodes[m].leaf
    requires Covers(t.spans[leaf], key) && key in t.nodes[m].keys
    ensures m == leaf
  {
    hide Less;
    assert LinksOk(t, Whole, leaf) && LinksOk(t, Whole, m);
    var i :| 0 <= i < |t.nodes[m].keys| && t.nodes[m].keys[i] == key;
    if m != leaf {
      DisjointSpans(t, odd, leaf, m);
      var s, r := t.spans[leaf], t.spans[m];
      if AtMost(s.hi, r.lo) {
        LessTrans(At(key), s.hi, r.lo);
        LessTotal(r.lo, At(key));
      } else {
        LessTrans(At(key), r.hi, s.lo);
        LessTotal(s.lo, At(key));
      }
    }
  }

  /** A change to the posting of one key in its leaf is that change to the whole set. */
  lemma EntriesOfKey(t: Tree, odd: set<NodeId>, leaf: NodeId, key: Key, t1: Tree, contents: map<Key, set<DocId>>,
                     contents1: map<Key, set<DocId>>)
    requires Ok(t, Whole, odd) && leaf in t.nodes && t.nodes[leaf].leaf && Covers(t.spans[leaf], key)
    requires t1.nodes.Keys == t.nodes.Keys && forall n :: n in t.nodes && n != leaf ==> t1.nodes[n] == t.nodes[n]
    requires Entries(t.nodes) == contents.Items
    requires forall k :: k != key ==> (k in contents1 <==> k in contents)
    requires forall k :: k != key && k in contents ==> contents1[k] == contents[k]
    requires forall e: Entry :: e.0 != key ==> (e in EntriesAt(t1.nodes, leaf) <==> e in EntriesAt(t.nodes, leaf))
    requires forall e: Entry :: e.0 == key ==> (e in EntriesAt(t1.nodes, leaf) <==> e in contents1.Items)
    ensures Entries(t1.nodes) == contents1.Items
  {
    hide Ok, Covers, Pairs;
    assert forall n :: n != leaf ==> EntriesAt(t1.nodes, n) == EntriesAt(t.nodes, n);
    hide EntriesAt;
    forall e
      ensures e in Entries(t1.nodes) <==> e in contents1.Items
    {
      if e.0 == key {
        KeyOnlyThere(t, odd, leaf, key, e);
        OnlyAt(t1.nodes, leaf, e);
      } else {
        assert e in contents1.Items <==> e in contents.Items;
        SameElsewhere(t.nodes, t1.nodes, leaf, e);
      }
    }
  }

  lemma OnlyAt(nodes: map<NodeId, BNode>, leaf: NodeId, e: Entry)
    requires leaf in nodes && forall n :: n != leaf ==> e !in EntriesAt(nodes, n)
    ensures e in Entries(nodes) <==> e in EntriesAt(nodes, leaf)
  {
    hide EntriesAt;
  }

  lemma SameElsewhere(nodes: map<NodeId, BNode>, nodes1: map<NodeId, BNode>, leaf: NodeId, e: Entry)
    requires nodes1.Keys == nodes.Keys && forall n :: n != leaf ==> EntriesAt(nodes1, n) == EntriesAt(nodes, n)
    requires e in EntriesAt(nodes1, leaf) <==> e in EntriesAt(nodes, leaf)
    ensures e in Entries(nodes1) <==> e in Entries(nodes)
  {
    hide EntriesAt;
  }

  lemma KeyOnlyThere(t: Tree, odd: set<NodeId>, leaf: NodeId, key: Key, e: Entry)
    requires Ok(t, Whole, odd) && leaf in t.nodes && t.nodes[leaf].leaf && Covers(t.spans[leaf], key)
    requires e.0 == key
    ensures forall n :: n != leaf ==> e !in EntriesAt(t.nodes, n)
    ensures e in Entries(t.nodes) <==> e in EntriesAt(t.nodes, leaf)
  {
    forall n | n != leaf
      ensures e !in EntriesAt(t.nodes, n)
    {
      if e in EntriesAt(t.nodes, n) {
        CoveringLeafIsUnique(t, odd, leaf, n, key);
      }
    }
    OnlyAt(t.nodes, leaf, e);
  }
}
