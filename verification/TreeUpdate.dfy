/** What each change to the nodes of a tree does to its shape and to the postings it stores. */
module TreeUpdate {
  import opened Collections
  import opened Keys
  import opened TreeShape
  import opened TreeMerge
  import opened TreeEntries
  import opened TreeScan

  lemma RootCovers(t: Tree, key: Key)
    requires Ok(t, Whole, {})
    ensures Covers(t.spans[t.root], key)
  {
    assert LinksOk(t, Whole, t.root);
  }

  lemma LeafForm(t: Tree, odd: set<NodeId>, leaf: NodeId)
    requires Ok(t, Whole, odd) && leaf in t.nodes && t.nodes[leaf].leaf
    ensures leaf in t.spans && |t.nodes[leaf].values| == |t.nodes[leaf].keys| && t.maxKeys >= 3
  {
    assert LinksOk(t, Whole, leaf);
  }

  lemma SplitNodes(t: Tree, left: NodeId, separator: Key, right: NodeId)
    requires SplitReady(t, left, separator, right)
    ensures t.nodes.Keys == t.spans.Keys && left in t.nodes && right in t.nodes && left != right && t.root in t.nodes
    ensures t.spans[left].ht <= t.spans[t.root].ht
  {
    assert LinksOk(t, Split(left, right), left);
  }

  lemma ParentOfSplit(t: Tree, left: NodeId, separator: Key, right: NodeId)
    requires SplitReady(t, left, separator, right) && left != t.root
    ensures t.nodes[left].parent.Some?
    ensures var p := t.nodes[left].parent.value;
            && p in t.nodes && p != right && p != left && !t.nodes[p].leaf && left in t.nodes[p].children
            && |t.nodes[p].children| == |t.nodes[p].keys| + 1
            && t.spans[p].ht == t.spans[left].ht + 1 <= t.spans[t.root].ht
  {
    hide Less, Sorted, InRange;
    var split := Split(left, right);
    assert LinksOk(t, split, left);
    var p := t.nodes[left].parent.value;
    OddMore(t, split, {left});
    ChildFacts(t, split, p);
    assert LinksOk(t, split, p);
  }

  /** A parent that received one more key is too full or just right. */
  lemma ParentFill(t: Tree, left: NodeId, separator: Key, right: NodeId, p: NodeId, index: nat, t1: Tree)
    requires SplitReady(t, left, separator, right) && IsParentInsert(t, left, separator, right, p, index, t1)
    requires Ok(t1, Whole, {p}) && p != left
    ensures |t1.nodes[p].keys| <= t1.maxKeys ==> Ok(t1, Whole, {})
    ensures |t1.nodes[p].keys| <= t1.maxKeys + 1
  {
    hide LinksOk;
    assert FillOk(t, p);
    if |t1.nodes[p].keys| <= t1.maxKeys {
      DropOdd(t1, {p});
    }
  }

  lemma DropOdd(t: Tree, odd: set<NodeId>)
    requires Ok(t, Whole, odd)
    requires forall n :: n in odd && n in t.nodes ==> FillOk(t, n)
    ensures Ok(t, Whole, {})
  {
    hide LinksOk, FillOk;
  }

  lemma KeyIsStored(t: Tree, leaf: NodeId, position: nat, key: Key, contents: map<Key, set<DocId>>)
    requires leaf in t.nodes && t.nodes[leaf].leaf && |t.nodes[leaf].keys| == |t.nodes[leaf].values|
    requires position < |t.nodes[leaf].keys| && t.nodes[leaf].keys[position] == key
    requires Entries(t.nodes) == contents.Items
    ensures key in contents && contents[key] == t.nodes[leaf].values[position]
  {
    var e := (t.nodes[leaf].keys[position], t.nodes[leaf].values[position]);
    assert e in EntriesAt(t.nodes, leaf);
    assert e in contents.Items;
  }

  lemma SortedDistinct(keys: seq<Key>, i: nat, j: nat)
    requires Sorted(keys) && i < |keys| && j < |keys| && keys[i] == keys[j]
    ensures i == j
  {
    hide Less;
    LessTotal(At(keys[i]), At(keys[i]));
  }

  lemma PairsReplace(keys: seq<Key>, values: seq<set<DocId>>, position: nat, docs: set<DocId>)
    requires Sorted(keys) && |keys| == |values| && position < |keys|
    ensures forall e: Entry :: e.0 != keys[position] ==>
              (e in Pairs(keys, values[position := docs]) <==> e in Pairs(keys, values))
    ensures forall e: Entry :: e.0 == keys[position] ==> (e in Pairs(keys, values[position := docs]) <==> e.1 == docs)
  {
    var values1 := values[position := docs];
    assert (keys[position], docs) == (keys[position], values1[position]);
    forall e: Entry
      ensures e.0 != keys[position] ==> (e in Pairs(keys, values1) <==> e in Pairs(keys, values))
      ensures e.0 == keys[position] ==> (e in Pairs(keys, values1) <==> e.1 == docs)
    {
      if e in Pairs(keys, values1) {
        var i :| 0 <= i < |keys| && e == (keys[i], values1[i]);
        if e.0 == keys[position] {
          SortedDistinct(keys, i, position);
        } else {
          assert e == (keys[i], values[i]);
        }
      }
      if e in Pairs(keys, values) && e.0 != keys[position] {
        var i :| 0 <= i < |keys| && e == (keys[i], values[i]);
        assert e == (keys[i], values1[i]);
      }
    }
  }

  lemma PostingChanged(t: Tree, leaf: NodeId, position: nat, key: Key, docs: set<DocId>, t1: Tree,
                       contents: map<Key, set<DocId>>, contents1: map<Key, set<DocId>>)
    requires Ok(t, Whole, {}) && leaf in t.nodes && t.nodes[leaf].leaf && |t.nodes[leaf].keys| == |t.nodes[leaf].values|
    requires Covers(t.spans[leaf], key)
    requires position < |t.nodes[leaf].keys| && t.nodes[leaf].keys[position] == key
    requires t1 == t.(nodes := t.nodes[leaf := t.nodes[leaf].(values := t.nodes[leaf].values[position := docs])])
    requires Entries(t.nodes) == contents.Items && key in contents && contents1 == contents[key := docs]
    ensures Ok(t1, Whole, {}) && Entries(t1.nodes) == contents1.Items && |contents1| == |contents|
  {
    hide Less;
    var n := t.nodes[leaf];
    assert LinksOk(t, Whole, leaf) && FillOk(t, leaf);
    LeafContentOk(t, {}, leaf, n.keys, n.values[position := docs], t1);
    assert FillOk(t1, leaf);
    DropOdd(t1, {} + {leaf});
    PairsReplace(n.keys, n.values, position, docs);
    hide Ok, Pairs, Covers, LinksOk, Entries;
    ItemsOfUpdate(contents, key, docs);
    EntriesOfKey(t, {}, leaf, key, t1, contents, contents1);
  }

  /** A key that belongs before `position` and is not there is nowhere in the leaf. */
  lemma NotInLeaf(keys: seq<Key>, position: nat, key: Key)
    requires Sorted(keys) && position <= |keys|
    requires position > 0 ==> Less(At(keys[position - 1]), At(key))
    requires position < |keys| ==> !Less(At(keys[position]), At(key)) && keys[position] != key
    ensures key !in keys
    ensures position < |keys| ==> Less(At(key), At(keys[position]))
  {
    hide Less;
    if position < |keys| {
      LessTotal(At(keys[position]), At(key));
    }
    forall i | 0 <= i < |keys|
      ensures keys[i] != key
    {
      LessTotal(At(key), At(key));
      if i < position {
        assert i == position - 1 || Less(At(keys[i]), At(keys[position - 1]));
        LessTrans(At(keys[i]), At(keys[position - 1]), At(key));
      } else {
        assert i == position || Less(At(keys[position]), At(keys[i]));
        LessTrans(At(key), At(keys[position]), At(keys[i]));
      }
    }
  }

  lemma PairsInsert(keys: seq<Key>, values: seq<set<DocId>>, position: nat, key: Key, docs: set<DocId>)
    requires |keys| == |values| && position <= |keys|
    ensures Pairs(InsertAt(keys, position, key), InsertAt(values, position, docs)) ==
              Pairs(keys, values) + {(key, docs)}
  {
    PairsOfSum(keys[..position], values[..position], [key], [docs]);
    PairsOfSum(keys[..position] + [key], values[..position] + [docs], keys[position..], values[position..]);
    CutPairs(keys, values, position);
    assert Pairs([key], [docs]) == {(key, docs)} by {
      assert ([key][0], [docs][0]) == (key, docs);
    }
    hide Pairs;
  }

  lemma KeyIsNew(t: Tree, leaf: NodeId, key: Key, contents: map<Key, set<DocId>>)
    requires Ok(t, Whole, {}) && leaf in t.nodes && t.nodes[leaf].leaf && |t.nodes[leaf].keys| == |t.nodes[leaf].values|
    requires Covers(t.spans[leaf], key) && key !in t.nodes[leaf].keys
    requires Entries(t.nodes) == contents.Items
    ensures key !in contents
    ensures forall e :: e in EntriesAt(t.nodes, leaf) ==> e.0 != key
  {
    if key in contents {
      assert (key, contents[key]) in contents.Items;
      KeyOnlyThere(t, {}, leaf, key, (key, contents[key]));
    }
  }

  /** A new key goes in at the position where it belongs in its leaf. */
  ghost predicate IsPostingAdd(t: Tree, leaf: NodeId, position: nat, key: Key, docs: set<DocId>, t1: Tree) {
    && leaf in t.nodes && leaf in t.spans && t.nodes[leaf].leaf && |t.nodes[leaf].keys| == |t.nodes[leaf].values|
    && Covers(t.spans[leaf], key)
    && var n := t.nodes[leaf];
       && position <= |n.keys|
       && (position > 0 ==> Less(At(n.keys[position - 1]), At(key)))
       && (position < |n.keys| ==> !Less(At(n.keys[position]), At(key)) && n.keys[position] != key)
       && t1 == t.(nodes :=
                   t.nodes[leaf := n.(keys := InsertAt(n.keys, position, key),
                                      values := InsertAt(n.values, position, docs))])
  }

  lemma AddedShape(t: Tree, leaf: NodeId, position: nat, key: Key, docs: set<DocId>, t1: Tree)
    requires Ok(t, Whole, {}) && IsPostingAdd(t, leaf, position, key, docs, t1)
    ensures Ok(t1, Whole, {leaf}) && |t1.nodes[leaf].keys| <= t.maxKeys + 1
    ensures |t1.nodes[leaf].keys| <= t.maxKeys ==> Ok(t1, Whole, {})
  {
    hide Less;
    var n := t.nodes[leaf];
    assert LinksOk(t, Whole, leaf) && FillOk(t, leaf);
    NotInLeaf(n.keys, position, key);
    InsertSorted(n.keys, position, key);
    InsertedInRange(n.keys, t.spans[leaf].lo, t.spans[leaf].hi, position, key);
    hide Sorted, InRange, LinksOk;
    LeafContentOk(t, {}, leaf, InsertAt(n.keys, position, key), InsertAt(n.values, position, docs), t1);
    assert {} + {leaf} == {leaf};
    hide Ok;
    if |t1.nodes[leaf].keys| <= t.maxKeys {
      DropOdd(t1, {leaf});
    }
  }

  lemma PostingAdded(t: Tree, leaf: NodeId, position: nat, key: Key, docs: set<DocId>, t1: Tree,
                     contents: map<Key, set<DocId>>, contents1: map<Key, set<DocId>>)
    requires Ok(t, Whole, {}) && IsPostingAdd(t, leaf, position, key, docs, t1)
    requires Entries(t.nodes) == contents.Items && contents1 == contents[key := docs]
    ensures key !in contents
    ensures Ok(t1, Whole, {leaf}) && Entries(t1.nodes) == contents1.Items && |contents1| == |contents| + 1
    ensures |t1.nodes[leaf].keys| <= t.maxKeys + 1
    ensures |t1.nodes[leaf].keys| <= t.maxKeys ==> Ok(t1, Whole, {})
  {
    hide Less, Ok, Covers, EntriesAt, Entries, IsPostingAdd;
    AddedShape(t, leaf, position, key, docs, t1);
    AddedEntry(t, leaf, position, key, docs, t1);
    KeyIsNew(t, leaf, key, contents);
    ItemsOfUpdate(contents, key, docs);
    var before, after := EntriesAt(t.nodes, leaf), EntriesAt(t1.nodes, leaf);
    forall e: Entry
      ensures e.0 != key ==> (e in after <==> e in before)
      ensures e.0 == key ==> (e in after <==> e in contents1.Items)
    {
      assert e in after <==> e in before || e == (key, docs);
    }
    EntriesOfKey(t, {}, leaf, key, t1, contents, contents1);
  }

  lemma ItemsOfUpdate(contents: map<Key, set<DocId>>, key: Key, docs: set<DocId>)
    ensures forall e: Entry :: e.0 == key ==> (e in contents[key := docs].Items <==> e.1 == docs)
    ensures |contents[key := docs]| == |contents| + if key in contents then 0 else 1
  {
    var contents1 := contents[key := docs];
    assert contents1.Keys == contents.Keys + {key};
  }

  lemma AddedEntry(t: Tree, leaf: NodeId, position: nat, key: Key, docs: set<DocId>, t1: Tree)
    requires Ok(t, Whole, {}) && IsPostingAdd(t, leaf, position, key, docs, t1)
    ensures leaf in t.nodes && t.nodes[leaf].leaf && |t.nodes[leaf].keys| == |t.nodes[leaf].values|
    ensures Covers(t.spans[leaf], key) && key !in t.nodes[leaf].keys
    ensures EntriesAt(t1.nodes, leaf) == EntriesAt(t.nodes, leaf) + {(key, docs)}
    ensures t1.nodes.Keys == t.nodes.Keys && forall n :: n in t.nodes && n != leaf ==> t1.nodes[n] == t.nodes[n]
  {
    hide Less, Pairs, InRange;
    var n := t.nodes[leaf];
    assert LinksOk(t, Whole, leaf);
    NotInLeaf(n.keys, position, key);
    PairsInsert(n.keys, n.values, position, key, docs);
  }

  lemma InsertedInRange(keys: seq<Key>, lo: Bound, hi: Bound, i: nat, key: Key)
    requires InRange(keys, lo, hi, false) && i <= |keys| && AtMost(lo, At(key)) && Less(At(key), hi)
    ensures InRange(InsertAt(keys, i, key), lo, hi, false)
  {
    hide Less;
  }

  ghost predicate IsPostingDrop(t: Tree, leaf: NodeId, index: nat, key: Key, t1: Tree) {
    && leaf in t.nodes && leaf in t.spans && t.nodes[leaf].leaf && |t.nodes[leaf].keys| == |t.nodes[leaf].values|
    && Covers(t.spans[leaf], key)
    && var n := t.nodes[leaf];
       && index < |n.keys| && n.keys[index] == key
       && t1 == t.(nodes := t.nodes[leaf := n.(keys := RemoveAt(n.keys, index), values := RemoveAt(n.values, index))])
  }

  lemma DroppedShape(t: Tree, leaf: NodeId, index: nat, key: Key, t1: Tree)
    requires Ok(t, Whole, {}) && IsPostingDrop(t, leaf, index, key, t1)
    ensures Ok(t1, Whole, {leaf}) && |t1.nodes[leaf].keys| <= t.maxKeys
    ensures leaf == t1.root || |t1.nodes[leaf].keys| >= LeafMin(t.maxKeys) ==> Ok(t1, Whole, {})
    ensures leaf != t1.root ==> |t1.nodes[leaf].keys| >= LeafMin(t.maxKeys) - 1
  {
    hide Less;
    var n := t.nodes[leaf];
    assert LinksOk(t, Whole, leaf) && FillOk(t, leaf);
    DropKey(n.keys, index, t.spans[leaf].lo, t.spans[leaf].hi);
    hide Sorted, InRange, LinksOk;
    LeafContentOk(t, {}, leaf, RemoveAt(n.keys, index), RemoveAt(n.values, index), t1);
    assert {} + {leaf} == {leaf};
    hide Ok;
    if leaf == t1.root || |t1.nodes[leaf].keys| >= LeafMin(t.maxKeys) {
      DropOdd(t1, {leaf});
    }
  }

  lemma DropKey(keys: seq<Key>, i: nat, lo: Bound, hi: Bound)
    requires Sorted(keys) && InRange(keys, lo, hi, false) && i < |keys|
    ensures Sorted(RemoveAt(keys, i)) && InRange(RemoveAt(keys, i), lo, hi, false)
  {
    hide Less;
    assert forall j :: 0 <= j < |keys| - 1 ==> RemoveAt(keys, i)[j] == keys[if j < i then j else j + 1];
  }

  lemma PairsDrop(keys: seq<Key>, values: seq<set<DocId>>, index: nat)
    requires Sorted(keys) && |keys| == |values| && index < |keys|
    ensures Pairs(RemoveAt(keys, index), RemoveAt(values, index)) ==
              Pairs(keys, values) - {(keys[index], values[index])}
    ensures forall e: Entry :: e in Pairs(keys, values) && e.0 == keys[index] ==> e.1 == values[index]
  {
    var keys1, values1 := RemoveAt(keys, index), RemoveAt(values, index);
    forall e: Entry
      ensures e in Pairs(keys1, values1) <==> e in Pairs(keys, values) && e.0 != keys[index]
      ensures e in Pairs(keys, values) && e.0 == keys[index] ==> e.1 == values[index]
    {
      if e in Pairs(keys, values) {
        var i :| 0 <= i < |keys| && e == (keys[i], values[i]);
        if e.0 == keys[index] {
          SortedDistinct(keys, i, index);
        } else {
          var j := if i < index then i else i - 1;
          assert e == (keys1[j], values1[j]);
        }
      }
      if e in Pairs(keys1, values1) {
        var j :| 0 <= j < |keys1| && e == (keys1[j], values1[j]);
        var i := if j < index then j else j + 1;
        assert e == (keys[i], values[i]);
        if e.0 == keys[index] {
          SortedDistinct(keys, i, index);
        }
      }
    }
  }

  lemma DroppedEntry(t: Tree, leaf: NodeId, index: nat, key: Key, t1: Tree)
    requires Ok(t, Whole, {}) && IsPostingDrop(t, leaf, index, key, t1)
    ensures leaf in t.nodes && t.nodes[leaf].leaf && Covers(t.spans[leaf], key)
    ensures forall e: Entry :: e.0 != key ==> (e in EntriesAt(t1.nodes, leaf) <==> e in EntriesAt(t.nodes, leaf))
    ensures forall e: Entry :: e.0 == key ==> e !in EntriesAt(t1.nodes, leaf)
    ensures t1.nodes.Keys == t.nodes.Keys && forall n :: n in t.nodes && n != leaf ==> t1.nodes[n] == t.nodes[n]
  {
    hide Less, Pairs, InRange;
    var n := t.nodes[leaf];
    assert LinksOk(t, Whole, leaf);
    PairsDrop(n.keys, n.values, index);
  }

  lemma PostingDropped(t: Tree, leaf: NodeId, index: nat, key: Key, t1: Tree,
                       contents: map<Key, set<DocId>>, contents1: map<Key, set<DocId>>)
    requires Ok(t, Whole, {}) && IsPostingDrop(t, leaf, index, key, t1)
    requires Entries(t.nodes) == contents.Items && key in contents && contents1 == contents - {key}
    ensures Ok(t1, Whole, {leaf}) && Entries(t1.nodes) == contents1.Items && |contents1| == |contents| - 1
    ensures |t1.nodes[leaf].keys| <= t.maxKeys
    ensures leaf == t1.root || |t1.nodes[leaf].keys| >= LeafMin(t.maxKeys) ==> Ok(t1, Whole, {})
    ensures leaf != t1.root ==> |t1.nodes[leaf].keys| >= LeafMin(t.maxKeys) - 1
  {
    hide Less, Ok, Covers, EntriesAt, Entries, IsPostingDrop;
    DroppedShape(t, leaf, index, key, t1);
    DroppedEntry(t, leaf, index, key, t1);
    EntriesOfKey(t, {}, leaf, key, t1, contents, contents1);
    assert contents1.Keys == contents.Keys - {key};
  }

  lemma RootForm(t: Tree, odd: set<NodeId>)
    requires Ok(t, Whole, odd) && odd == {t.root} && |t.nodes[t.root].keys| <= t.maxKeys
    ensures if t.nodes[t.root].leaf || t.nodes[t.root].keys != [] then Ok(t, Whole, {})
            else |t.nodes[t.root].children| == 1 && t.nodes[t.root].children[0] in t.nodes &&
                 t.nodes[t.root].children[0] != t.root
    ensures t.nodes.Keys == t.spans.Keys
  {
    assert LinksOk(t, Whole, t.root);
    if t.nodes[t.root].leaf || t.nodes[t.root].keys != [] {
      hide LinksOk;
      DropOdd(t, odd);
    } else {
      assert ChildOk(t, Whole, t.root, 0);
    }
  }

  lemma Collapsed(t: Tree, odd: set<NodeId>, c: NodeId, t1: Tree)
    requires Ok(t, Whole, odd) && odd == {t.root} && c in t.nodes && t.nodes[t.root].children == [c]
    requires t1 == Tree(t.maxKeys, t.nodes[c := t.nodes[c].(parent := None)] - {t.root}, t.spans - {t.root}, c)
    ensures Ok(t1, Whole, {}) && Entries(t1.nodes) == Entries(t.nodes)
    ensures forall n :: n in t1.nodes ==> n in t.nodes
  {
    hide Less, Sorted, InRange;
    OddMore(t, Whole, odd);
    ParentOfChild(t, t.root, c);
    assert LinksOk(t, Whole, t.root) && FillOk(t, c) && LinksOk(t, Whole, c);
    CollapseOk(t, odd, c, t1);
    hide Ok, LinksOk, Pairs, Entries;
    assert FillOk(t1, c);
    DropOdd(t1, odd + {c});
    SameEntries(t.nodes, t1.nodes);
  }

  /** A node other than the root has a parent with a sibling beside it. */
  lemma SiblingForm(t: Tree, node: NodeId)
    requires Ok(t, Whole, {node}) && node in t.nodes && node != t.root
    ensures t.nodes.Keys == t.spans.Keys && t.nodes[node].parent.Some?
    ensures var p := t.nodes[node].parent.value;
            && p in t.nodes && p != node && node in t.nodes[p].children
            && 2 <= |t.nodes[p].children| == |t.nodes[p].keys| + 1
            && forall c :: c in t.nodes[p].children ==> c in t.nodes && t.spans[c].ht == t.spans[node].ht
  {
    hide Less, Sorted, InRange;
    assert LinksOk(t, Whole, node);
    var p := t.nodes[node].parent.value;
    assert LinksOk(t, Whole, p);
    OddMore(t, Whole, {node});
    ParentOfChild(t, p, node);
    ChildFacts(t, Whole, p);
    assert FillOk(t, p);
  }

  /** A sibling that cannot lend a key holds exactly the minimum. */
  lemma SiblingFill(t: Tree, node: NodeId, p: NodeId, i: nat)
    requires Ok(t, Whole, {node}) && node in t.nodes && p in t.nodes && i + 1 < |t.nodes[p].children|
    requires node == t.nodes[p].children[i] || node == t.nodes[p].children[i + 1]
    ensures var sibling := if node == t.nodes[p].children[i] then t.nodes[p].children[i + 1]
            else t.nodes[p].children[i];
            && sibling in t.nodes && t.nodes[sibling].leaf == t.nodes[node].leaf
            && |t.nodes[sibling].keys| >= MinKeys(t.maxKeys, t.nodes[node].leaf)
  {
    var a, b := t.nodes[p].children[i], t.nodes[p].children[i + 1];
    assert LinksOk(t, Whole, p);
    SiblingFacts(t, {node}, p, i, a, b);
    assert FillOk(t, if node == a then b else a);
  }

  lemma SiblingShape(t: Tree, odd: set<NodeId>, n: NodeId)
    requires Ok(t, Whole, odd) && n in t.nodes
    ensures t.maxKeys >= 3 && t.nodes.Keys == t.spans.Keys
    ensures if t.nodes[n].leaf then |t.nodes[n].values| == |t.nodes[n].keys| && t.nodes[n].children == []
            else |t.nodes[n].children| == |t.nodes[n].keys| + 1 && t.nodes[n].values == [] && t.nodes[n].next == None
  {
    assert LinksOk(t, Whole, n);
  }

  lemma OddEither(t: Tree, a: NodeId, b: NodeId)
    requires Ok(t, Whole, {a}) || Ok(t, Whole, {b})
    ensures Ok(t, Whole, {a, b})
  {
    hide LinksOk, FillOk;
  }

  /** The last key of `left`, with its posting or its child, has moved to the front of `node`. */
  ghost predicate IsBorrowLeft(t: Tree, node: NodeId, left: NodeId, parent: NodeId, index: nat, t1: Tree) {
    && node in t.nodes && left in t.nodes && parent in t.nodes && node in t.spans && left in t.spans
    && index > 0 && Siblings(t, parent, index - 1, left, node) && index - 1 < |t.nodes[parent].keys|
    && |t.nodes[left].keys| > 1
    && var l, n, p, last := t.nodes[left], t.nodes[node], t.nodes[parent], |t.nodes[left].keys| - 1;
       && |l.values| == (if n.leaf then |l.keys| else 0) && |l.children| == (if n.leaf then 0 else |l.keys| + 1)
       && l.leaf == n.leaf
       && t1.root == t.root && t1.maxKeys == t.maxKeys
       && t1.spans == t.spans[left := t.spans[left].(hi := At(l.keys[last]))]
                              [node := t.spans[node].(lo := At(l.keys[last]))]
       && t1.nodes ==
          if n.leaf then
            t.nodes[left := l.(keys := l.keys[..last], values := l.values[..last])]
                   [node := n.(keys := [l.keys[last]] + n.keys, values := [l.values[last]] + n.values)]
                   [parent := p.(keys := p.keys[index - 1 := l.keys[last]])]
          else
            Reparent(t.nodes[left := l.(keys := l.keys[..last], children := l.children[..last + 1])]
                            [node := n.(keys := [p.keys[index - 1]] + n.keys,
                                        children := [l.children[last + 1]] + n.children)]
                            [parent := p.(keys := p.keys[index - 1 := l.keys[last]])],
                     [l.children[last + 1]], node)
  }

  lemma RecutSameNodes(t: Tree, p: NodeId, i: nat, a: NodeId, b: NodeId, m: nat, t1: Tree)
    requires IsRecut(t, p, i, a, b, m, t1)
    ensures t1.nodes.Keys == t.nodes.Keys
  {
  }

  lemma MergeDropsRight(t: Tree, p: NodeId, i: nat, a: NodeId, b: NodeId, t1: Tree)
    requires IsMerge(t, p, i, a, b, t1)
    ensures t1.nodes.Keys == t.nodes.Keys - {b}
  {
  }

  lemma BorrowLeftIsRecut(t: Tree, node: NodeId, left: NodeId, parent: NodeId, index: nat, t1: Tree)
    requires Ok(t, Whole, {node}) && IsBorrowLeft(t, node, left, parent, index, t1)
    ensures IsRecut(t, parent, index - 1, left, node, |t.nodes[left].keys| - 1, t1)
  {
    SiblingFacts(t, {node}, parent, index - 1, left, node);
    hide Less, Ok;
    if t.nodes[node].leaf {
      var l, n, m := t.nodes[left], t.nodes[node], |t.nodes[left].keys| - 1;
      var keys, values := l.keys + n.keys, l.values + n.values;
      assert JoinedKeys(t, parent, index - 1, left, node) == keys;
      assert keys[..m] == l.keys[..m] && keys[m..] == [l.keys[m]] + n.keys;
      assert values[..m] == l.values[..m] && values[m..] == [l.values[m]] + n.values;
      SiblingShape(t, {node}, left);
      SiblingShape(t, {node}, node);
    } else {
      BorrowLeftInternal(t, node, left, parent, index, t1);
    }
  }

  lemma CutBeforeLast(ka: seq<Key>, sep: Key, kb: seq<Key>, ca: seq<NodeId>, cb: seq<NodeId>)
    requires |ka| >= 1 && |ca| == |ka| + 1
    ensures var keys, children, m := ka + [sep] + kb, ca + cb, |ka| - 1;
            && keys[m] == ka[m] && keys[..m] == ka[..m] && keys[m + 1..] == [sep] + kb
            && children[..m + 1] == ca[..m + 1] && children[m + 1..] == [ca[m + 1]] + cb
  {
  }

  lemma CutAfterFirst(ka: seq<Key>, sep: Key, kb: seq<Key>, ca: seq<NodeId>, cb: seq<NodeId>)
    requires |kb| >= 1 && |ca| == |ka| + 1 && |cb| >= 1
    ensures var keys, children, m := ka + [sep] + kb, ca + cb, |ka| + 1;
            && keys[m] == kb[0] && keys[..m] == ka + [sep] && keys[m + 1..] == kb[1..]
            && children[..m + 1] == ca + [cb[0]] && children[m + 1..] == cb[1..]
  {
  }

  lemma BorrowLeftInternal(t: Tree, node: NodeId, left: NodeId, parent: NodeId, index: nat, t1: Tree)
    requires Ok(t, Whole, {node}) && IsBorrowLeft(t, node, left, parent, index, t1) && !t.nodes[node].leaf
    ensures IsRecut(t, parent, index - 1, left, node, |t.nodes[left].keys| - 1, t1)
  {
    var l, n, p, m := t.nodes[left], t.nodes[node], t.nodes[parent], |t.nodes[left].keys| - 1;
    var keys, children := JoinedKeys(t, parent, index - 1, left, node), l.children + n.children;
    var child := l.children[m + 1];
    SiblingFacts(t, {node}, parent, index - 1, left, node);
    SiblingShape(t, {node}, node);
    OddMore(t, Whole, {node});
    ChildFacts(t, Whole, left);
    ChildFacts(t, Whole, node);
    assert child in l.children;
    forall j | 0 <= j < m + 1
      ensures l.children[j] != child
    {
      ChildrenDistinct(t, Whole, left, j, m + 1);
    }
    hide Less, Ok;
    CutBeforeLast(l.keys, p.keys[index - 1], n.keys, l.children, n.children);
    assert t1.nodes.Keys == t.nodes.Keys;
    hide JoinedKeys;
    forall x | x in t.nodes && x != left && x != node && x != parent
      ensures SameButParent(t1.nodes[x], t.nodes[x])
      ensures t1.nodes[x].parent == ParentAfter(t, left, l.children[..m + 1], node, [child] + n.children, x)
    {
      if x in l.children[..m + 1] {
        assert x in l.children;
      }
    }
  }

  lemma BorrowLeftFills(t: Tree, node: NodeId, left: NodeId, parent: NodeId, index: nat, t1: Tree)
    requires Ok(t, Whole, {node}) && IsBorrowLeft(t, node, left, parent, index, t1)
    requires |t.nodes[node].keys| == MinKeys(t.maxKeys, t.nodes[node].leaf) - 1
    requires |t.nodes[left].keys| > MinKeys(t.maxKeys, t.nodes[node].leaf)
    ensures left in t1.nodes && FillOk(t1, left) && node in t1.nodes && FillOk(t1, node)
  {
    SiblingFacts(t, {node}, parent, index - 1, left, node);
    assert FillOk(t, left);
    hide Less, LinksOk, Ok;
  }

  /** The first key of `right`, with its posting or its child, has moved to the end of `node`. */
  ghost predicate IsBorrowRight(t: Tree, node: NodeId, right: NodeId, parent: NodeId, index: nat, t1: Tree) {
    && node in t.nodes && right in t.nodes && parent in t.nodes && node in t.spans && right in t.spans
    && Siblings(t, parent, index, node, right) && index < |t.nodes[parent].keys|
    && |t.nodes[right].keys| > 1
    && var n, r, p := t.nodes[node], t.nodes[right], t.nodes[parent];
       var separator := if n.leaf then r.keys[1] else r.keys[0];
       && |r.values| == (if n.leaf then |r.keys| else 0) && |r.children| == (if n.leaf then 0 else |r.keys| + 1)
       && r.leaf == n.leaf
       && t1.root == t.root && t1.maxKeys == t.maxKeys
       && t1.spans == t.spans[node := t.spans[node].(hi := At(separator))]
                              [right := t.spans[right].(lo := At(separator))]
       && t1.nodes ==
          if n.leaf then
            t.nodes[node := n.(keys := n.keys + [r.keys[0]], values := n.values + [r.values[0]])]
                   [right := r.(keys := r.keys[1..], values := r.values[1..])]
                   [parent := p.(keys := p.keys[index := separator])]
          else
            Reparent(t.nodes[node := n.(keys := n.keys + [p.keys[index]], children := n.children + [r.children[0]])]
                            [right := r.(keys := r.keys[1..], children := r.children[1..])]
                            [parent := p.(keys := p.keys[index := separator])],
                     [r.children[0]], node)
  }

  lemma BorrowRightIsRecut(t: Tree, node: NodeId, right: NodeId, parent: NodeId, index: nat, t1: Tree)
    requires Ok(t, Whole, {node}) && IsBorrowRight(t, node, right, parent, index, t1)
    ensures IsRecut(t, parent, index, node, right, |t.nodes[node].keys| + 1, t1)
  {
    SiblingFacts(t, {node}, parent, index, node, right);
    hide Less, Ok;
    if t.nodes[node].leaf {
      var n, r, m := t.nodes[node], t.nodes[right], |t.nodes[node].keys| + 1;
      var keys, values := n.keys + r.keys, n.values + r.values;
      SiblingShape(t, {node}, node);
      SiblingShape(t, {node}, right);
      assert JoinedKeys(t, parent, index, node, right) == keys;
      assert keys[..m] == n.keys + [r.keys[0]] && keys[m..] == r.keys[1..] && keys[m] == r.keys[1];
      assert values[..m] == n.values + [r.values[0]] && values[m..] == r.values[1..];
    } else {
      BorrowRightInternal(t, node, right, parent, index, t1);
    }
  }

  lemma BorrowRightInternal(t: Tree, node: NodeId, right: NodeId, parent: NodeId, index: nat, t1: Tree)
    requires Ok(t, Whole, {node}) && IsBorrowRight(t, node, right, parent, index, t1) && !t.nodes[node].leaf
    ensures IsRecut(t, parent, index, node, right, |t.nodes[node].keys| + 1, t1)
  {
    var n, r, p, m := t.nodes[node], t.nodes[right], t.nodes[parent], |t.nodes[node].keys| + 1;
    var keys, children := JoinedKeys(t, parent, index, node, right), n.children + r.children;
    var child := r.children[0];
    SiblingFacts(t, {node}, parent, index, node, right);
    SiblingShape(t, {node}, node);
    OddMore(t, Whole, {node});
    ChildFacts(t, Whole, node);
    ChildFacts(t, Whole, right);
    assert child in r.children;
    hide Less, Ok;
    CutAfterFirst(n.keys, p.keys[index], r.keys, n.children, r.children);
    assert t1.nodes.Keys == t.nodes.Keys;
    hide JoinedKeys;
    forall x | x in t.nodes && x != node && x != right && x != parent
      ensures SameButParent(t1.nodes[x], t.nodes[x])
      ensures t1.nodes[x].parent == ParentAfter(t, node, n.children + [child], right, r.children[1..], x)
    {
      if x in r.children[1..] {
        assert x in r.children;
      }
    }
  }

  lemma BorrowRightFills(t: Tree, node: NodeId, right: NodeId, parent: NodeId, index: nat, t1: Tree)
    requires Ok(t, Whole, {node}) && IsBorrowRight(t, node, right, parent, index, t1)
    requires |t.nodes[node].keys| == MinKeys(t.maxKeys, t.nodes[node].leaf) - 1
    requires |t.nodes[right].keys| > MinKeys(t.maxKeys, t.nodes[node].leaf)
    ensures right in t1.nodes && FillOk(t1, right) && node in t1.nodes && FillOk(t1, node)
  {
    SiblingFacts(t, {node}, parent, index, node, right);
    assert FillOk(t, right);
    hide Less, LinksOk, Ok;
  }

  ghost predicate IsMergeResult(t: Tree, left: NodeId, right: NodeId, parent: NodeId, i: nat, t1: Tree) {
    && left in t.nodes && right in t.nodes && parent in t.nodes && left in t.spans && right in t.spans
    && Siblings(t, parent, i, left, right) && left != parent && right != parent && left != right
    && t1.root == t.root && t1.maxKeys == t.maxKeys
    && var l, r, p := t.nodes[left], t.nodes[right], t.nodes[parent];
       var nodes := if l.leaf
                    then t.nodes[left := l.(keys := l.keys + r.keys, values := l.values + r.values, next := r.next)]
                    else Reparent(t.nodes[left := l.(keys := l.keys + [p.keys[i]] + r.keys,
                                                     children := l.children + r.children)],
                                  r.children, left);
       && parent in nodes
       && t1.nodes == nodes[parent := nodes[parent].(keys := RemoveAt(p.keys, i),
                                                     children := RemoveAt(p.children, i + 1))] - {right}
       && t1.spans == t.spans[left := t.spans[left].(hi := t.spans[right].hi)] - {right}
  }

  /** What merging two siblings leaves in the joined node. */
  lemma MergedNode(t: Tree, left: NodeId, right: NodeId, parent: NodeId, i: nat, t1: Tree)
    requires Ok(t, Whole, {left, right}) && IsMergeResult(t, left, right, parent, i, t1)
    ensures left in t1.nodes && parent in t1.nodes
    ensures t1.nodes[left] ==
            t.nodes[left].(keys := JoinedKeys(t, parent, i, left, right),
                           values := t.nodes[left].values + t.nodes[right].values,
                           children := t.nodes[left].children + t.nodes[right].children, next := t.nodes[right].next)
    ensures t1.nodes[parent] == t.nodes[parent].(keys := RemoveAt(t.nodes[parent].keys, i),
                                                 children := RemoveAt(t.nodes[parent].children, i + 1))
  {
    hide Less, Ok;
    SiblingFacts(t, {left, right}, parent, i, left, right);
    SiblingShape(t, {left, right}, left);
    SiblingShape(t, {left, right}, right);
    OddMore(t, Whole, {left, right});
    ChildFacts(t, Whole, right);
    var l, r := t.nodes[left], t.nodes[right];
    if l.leaf {
      assert JoinedKeys(t, parent, i, left, right) == l.keys + r.keys;
      assert l.children + r.children == [];
    } else {
      assert l.values + r.values == [];
    }
  }

  lemma MergedElsewhere(t: Tree, left: NodeId, right: NodeId, parent: NodeId, i: nat, t1: Tree, n: NodeId)
    requires IsMergeResult(t, left, right, parent, i, t1)
    requires t.nodes[left].leaf ==> t.nodes[right].children == []
    requires n in t.nodes && n != left && n != right && n != parent
    ensures n in t1.nodes && SameButParent(t1.nodes[n], t.nodes[n])
    ensures t1.nodes[n].parent == if n in t.nodes[right].children then Some(left) else t.nodes[n].parent
  {
    hide Less;
  }

  lemma MergeIsMerge(t: Tree, left: NodeId, right: NodeId, parent: NodeId, i: nat, t1: Tree)
    requires Ok(t, Whole, {left, right}) && IsMergeResult(t, left, right, parent, i, t1)
    ensures IsMerge(t, parent, i, left, right, t1)
  {
    hide Less, Ok, JoinedKeys, RemoveAt, SameButParent;
    SiblingFacts(t, {left, right}, parent, i, left, right);
    SiblingShape(t, {left, right}, right);
    MergedNode(t, left, right, parent, i, t1);
    assert t1.nodes.Keys == t.nodes.Keys - {right};
    forall n | n in t.nodes && n != left && n != right && n != parent
      ensures n in t1.nodes && SameButParent(t1.nodes[n], t.nodes[n])
      ensures t1.nodes[n].parent == if n in t.nodes[right].children then Some(left) else t.nodes[n].parent
    {
      MergedElsewhere(t, left, right, parent, i, t1, n);
    }
  }

  lemma Borrowed(t: Tree, node: NodeId, p: NodeId, i: nat, a: NodeId, b: NodeId, m: nat, t1: Tree)
    requires Ok(t, Whole, {node}) && (node == a || node == b) && IsRecut(t, p, i, a, b, m, t1)
    requires forall n :: n in t.nodes && (n == a || n == b) ==> FillOk(t1, n)
    ensures Ok(t1, Whole, {}) && Entries(t1.nodes) == Entries(t.nodes) && t1.nodes.Keys == t.nodes.Keys
  {
    RecutOk(t, {node}, p, i, a, b, m, t1);
    LeafRecutEntries(t, {node}, p, i, a, b, m, t1);
    assert t1.nodes.Keys == t.nodes.Keys;
    hide Ok, LinksOk, FillOk, IsRecut, Entries;
    DropOdd(t1, {node} + {a, b});
  }

  lemma Merged(t: Tree, a: NodeId, b: NodeId, p: NodeId, i: nat, t1: Tree)
    requires Ok(t, Whole, {a, b}) && IsMerge(t, p, i, a, b, t1)
    requires |t.nodes[a].keys| + |t.nodes[b].keys| == 2 * MinKeys(t.maxKeys, t.nodes[a].leaf) - 1
    ensures Ok(t1, Whole, {p}) && Entries(t1.nodes) == Entries(t.nodes) && t1.nodes.Keys <= t.nodes.Keys
    ensures a in t1.nodes && p in t1.nodes && !t1.nodes[p].leaf && |t1.nodes[p].keys| <= t.maxKeys
    ensures t1.root == t.root && t1.spans.Keys == t1.nodes.Keys
    ensures t.spans[a].ht + 1 == t1.spans[p].ht && t1.root in t1.spans && t1.spans[t1.root].ht == t.spans[t.root].ht
    ensures t1.spans[p].ht <= t1.spans[t1.root].ht
    ensures p != t1.root ==> |t1.nodes[p].keys| >= InternalMin(t.maxKeys) - 1
    ensures (if p == t1.root then t1.nodes[p].keys != [] else |t1.nodes[p].keys| >= InternalMin(t.maxKeys)) ==>
              Ok(t1, Whole, {})
    ensures p == t1.root && t1.nodes[p].keys == [] ==> t1.nodes[p].children == [a]
  {
    SiblingFacts(t, {a, b}, p, i, a, b);
    MergeOk(t, {a, b}, p, i, a, b, t1);
    MergeEntries(t, {a, b}, p, i, a, b, t1);
    MergeFrame(t, {a, b}, p, i, a, b, t1);
    assert FillOk(t, p);
    assert LinksOk(t, Whole, p);
    hide Ok, LinksOk, Entries, Less;
    assert FillOk(t1, a);
    hide IsMerge;
    OddOnly(t1, {a, b} + {a, p}, p);
    if (if p == t1.root then t1.nodes[p].keys != [] else |t1.nodes[p].keys| >= InternalMin(t.maxKeys)) {
      DropOdd(t1, {p});
    }
  }

  lemma OddOnly(t: Tree, odd: set<NodeId>, p: NodeId)
    requires Ok(t, Whole, odd)
    requires forall n :: n in odd && n in t.nodes && n != p ==> FillOk(t, n)
    ensures Ok(t, Whole, {p})
  {
    hide LinksOk, FillOk;
  }

  ghost predicate UpTo(result: seq<Entry>, to: Key) {
    forall e :: e in result ==> AtMost(At(e.0), At(to))
  }

  lemma NothingBelowLow(contents: map<Key, set<DocId>>)
    ensures Lists(contents, [], Low, Low)
  {
  }

  lemma NotBelowLow(key: Key)
    ensures !Less(At(key), Low)
  {
  }

  lemma BelowHigh(key: Key)
    ensures Less(At(key), High)
  {
  }

  lemma NothingBefore(contents: map<Key, set<DocId>>, from: Bound, hi: Bound)
    requires AtMost(hi, from)
    ensures Lists(contents, [], from, hi)
  {
    hide Less;
    forall e: Entry
      ensures !(AtMost(from, At(e.0)) && Less(At(e.0), hi))
    {
      if Less(At(e.0), hi) {
        LessTrans(At(e.0), hi, from);
        LessTotal(from, At(e.0));
      }
    }
  }

  /** Once everything before a key above `to` is listed, the scan is complete. */
  lemma RangeDone(contents: map<Key, set<DocId>>, result: seq<Entry>, from: Key, to: Key, hi: Bound)
    requires Lists(contents, result, At(from), hi) && UpTo(result, to) && Less(At(to), hi)
    ensures Ascends(result)
    ensures forall e :: e in result <==>
              e in contents.Items && AtMost(At(from), At(e.0)) && AtMost(At(e.0), At(to))
  {
    hide Less;
    forall e: Entry | AtMost(At(e.0), At(to))
      ensures Less(At(e.0), hi)
    {
      LessTrans(At(e.0), At(to), hi);
    }
  }
}
