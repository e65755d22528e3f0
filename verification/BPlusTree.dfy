/** The B+-tree itself: an arena of nodes whose keys, children and pointers are updated in place. */
module BPlusTrees {
  import opened Collections
  import opened Keys
  import opened TreeShape
  import opened TreeMerge
  import opened TreeEntries
  import opened TreeUpdate
  import opened TreeScan
  import opened TreeHeight
  import opened TreeSeparators
  import opened TreeExactness

  class BPlusTree {
    const maxKeys: nat
    var nodes: map<NodeId, BNode>
    var root: NodeId
    var size: nat
    var nextId: NodeId
    /** The key range and height of each node. */
    ghost var spans: map<NodeId, Span>
    /** The documents filed under each key. */
    ghost var contents: map<Key, set<DocId>>

    ghost function Shape(): Tree
      reads this
    {
      Tree(maxKeys, nodes, spans, root)
    }

    /** The leaves hold exactly the contents, and identities are handed out in order. */
    ghost predicate Stores()
      reads this
    {
      && Entries(nodes) == contents.Items && size == |contents|
      && forall n :: n in nodes ==> n < nextId
    }

    ghost predicate Valid()
      reads this
    {
      Ok(Shape(), Whole, {}) && Stores()
    }

    /** Every separator is the smallest key stored to its right. */
    ghost predicate SeparatorsExact()
      requires Ok(Shape(), Whole, {})
      reads this
    {
      ExactMeansNoneStale(Shape());
      Exact(Shape())
    }

    constructor (maxKeys: nat)
      requires maxKeys >= 3
      ensures Valid() && contents == map[] && this.maxKeys == maxKeys
    {
      this.maxKeys := maxKeys;
      nodes := map[0 := BNode(true, [], [], [], None, None)];
      root, size, nextId := 0, 0, 1;
      spans := map[0 := Span(Low, High, 0)];
      contents := map[];
      new;
      assert LinksOk(Shape(), Whole, 0) && FillOk(Shape(), 0);
    }

    /** Descends to the leaf whose range covers `key`, in as many hops as the tree has levels below the root. */
    method FindLeaf(key: Key) returns (leaf: NodeId, ghost hops: nat)
      requires Ok(Shape(), Whole, {})
      ensures leaf in nodes && leaf in spans && nodes[leaf].leaf && Covers(spans[leaf], key)
      ensures root in spans && hops == spans[root].ht
    {
      hide Less;
      leaf, hops := root, 0;
      RootCovers(Shape(), key);
      while !nodes[leaf].leaf
        invariant leaf in nodes && Covers(spans[leaf], key) && hops + spans[leaf].ht == spans[root].ht
        decreases spans[leaf].ht
      {
        var index := 0;
        assert LinksOk(Shape(), Whole, leaf);
        while index < |nodes[leaf].keys| && AtMost(At(nodes[leaf].keys[index]), At(key))
          invariant 0 <= index <= |nodes[leaf].keys|
          invariant index > 0 ==> AtMost(At(nodes[leaf].keys[index - 1]), At(key))
        {
          index := index + 1;
        }
        assert ChildOk(Shape(), Whole, leaf, index);
        if index < |nodes[leaf].keys| {
          LessTotal(At(nodes[leaf].keys[index]), At(key));
        }
        leaf, hops := nodes[leaf].children[index], hops + 1;
      }
      assert LinksOk(Shape(), Whole, leaf);
    }

    /** Nothing but the shape of the tree has changed. */
    twostate predicate SameStore()
      reads this
    {
      && contents == old(contents) && size == old(size)
      && Entries(nodes) == old(Entries(nodes))
      && forall n :: n in nodes ==> n < nextId
    }

    method SplitLeaf(leaf: NodeId)
      requires Ok(Shape(), Whole, {leaf}) && forall n :: n in nodes ==> n < nextId
      requires leaf in nodes && nodes[leaf].leaf && |nodes[leaf].keys| == maxKeys + 1
      modifies this
      ensures Ok(Shape(), Whole, {}) && SameStore() && Stale(nodes) == old(Stale(nodes))
    {
      hide Less, Ok, Pairs, SplitOk, FillOk, Stale, Stored;
      ghost var t0 := Shape();
      LeafForm(t0, {leaf}, leaf);
      var n := nodes[leaf];
      var mid := (|n.keys| + 1) / 2;
      var right := nextId;
      nextId := nextId + 1;
      nodes := nodes[leaf := n.(keys := n.keys[..mid], values := n.values[..mid], next := Some(right))]
                    [right := BNode(true, n.keys[mid..], n.values[mid..], [], n.next, n.parent)];
      spans := SplitSpans(t0, leaf, right, n.keys[mid]);
      SplitLeafOk(t0, leaf, right, Shape());
      LeafSplitEntries(t0, leaf, right, Shape());
      LeafSplitStale(t0, leaf, right, Shape());
      // The key that goes up as separator stays in the right leaf, too.
      InsertIntoParent(leaf, n.keys[mid], right);
    }

    method InsertIntoParent(left: NodeId, separator: Key, right: NodeId)
      requires SplitReady(Shape(), left, separator, right) && forall n :: n in nodes ==> n < nextId
      modifies this
      ensures Ok(Shape(), Whole, {}) && SameStore()
      ensures Stale(nodes) == old(Stale(nodes)) + ({separator} - old(Stored(nodes)))
      decreases if root in spans && left in spans then spans[root].ht - spans[left].ht else 0, 0
    {
      hide Less, Pairs, Ok, LinksOk, FillOk, SplitOk, Entries, Stale, Stored;
      ghost var t0 := Shape();
      SplitNodes(t0, left, separator, right);
      if left == root {
        var id := nextId;
        nextId := nextId + 1;
        nodes := nodes[left := nodes[left].(parent := Some(id))]
                      [right := nodes[right].(parent := Some(id))]
                      [id := BNode(false, [separator], [], [left, right], None, None)];
        spans := spans[id := Span(Low, High, spans[left].ht + 1)];
        root := id;
        NewRootOk(t0, left, separator, right, id, Shape());
        SameEntries(t0.nodes, nodes);
        NewRootStale(t0, left, separator, right, id, Shape());
        return;
      }
      ParentOfSplit(t0, left, separator, right);
      var parent := nodes[left].parent.value;
      var index := IndexOf(nodes[parent].children, left);
      nodes := nodes[parent := nodes[parent].(keys := InsertAt(nodes[parent].keys, index, separator),
                                              children := InsertAt(nodes[parent].children, index + 1, right))]
                    [right := nodes[right].(parent := Some(parent))];
      ParentInsertOk(t0, left, separator, right, parent, index, Shape());
      SameEntries(t0.nodes, nodes);
      ParentInsertStale(t0, left, separator, right, parent, index, Shape());
      ParentFill(t0, left, separator, right, parent, index, Shape());
      if |nodes[parent].keys| > maxKeys {
        SplitInternal(parent);
      }
    }

    method SplitInternal(node: NodeId)
      requires Ok(Shape(), Whole, {node}) && forall n :: n in nodes ==> n < nextId
      requires node in nodes && !nodes[node].leaf && |nodes[node].keys| == maxKeys + 1
      modifies this
      ensures Ok(Shape(), Whole, {}) && SameStore() && Stale(nodes) == old(Stale(nodes))
      decreases if root in spans && node in spans then spans[root].ht - spans[node].ht else 0, 1
    {
      hide Less, Pairs, Ok, LinksOk, FillOk, SplitOk, Stale, Stored;
      ghost var t0 := Shape();
      SiblingShape(t0, {node}, node);
      ArenaOk(t0, {node});
      var n := nodes[node];
      var mid := |n.keys| / 2;
      var separator := n.keys[mid];
      var right := nextId;
      nextId := nextId + 1;
      var moved := n.children[mid + 1..];
      nodes := nodes[node := n.(keys := n.keys[..mid], children := n.children[..mid + 1])]
                    [right := BNode(false, n.keys[mid + 1..], [], moved, None, n.parent)];
      spans := SplitSpans(t0, node, right, separator);
      SetParents(moved, right);
      SplitInternalOk(t0, node, right, Shape());
      SameEntries(t0.nodes, nodes);
      InternalSplitStale(t0, node, right, Shape());
      // The separator moves up; it is not copied.
      InsertIntoParent(node, separator, right);
    }

    /** Points the parent of every node in `moved` at `p`. */
    method SetParents(moved: seq<NodeId>, p: NodeId)
      modifies `nodes
      ensures nodes == Reparent(old(nodes), moved, p)
    {
      for i := 0 to |moved|
        invariant nodes == Reparent(old(nodes), moved[..i], p)
      {
        var child := moved[i];
        assert moved[..i + 1] == moved[..i] + [child];
        if child in nodes {
          nodes := nodes[child := nodes[child].(parent := Some(p))];
        }
      }
      assert moved[..|moved|] == moved;
    }

    /** Files a document under a key. */
    method Insert(key: Key, docId: DocId)
      requires Valid()
      modifies this
      ensures Valid()
      ensures contents == old(contents)[key := (if key in old(contents) then old(contents)[key] else {}) + {docId}]
      ensures Stale(nodes) == old(Stale(nodes)) - {key}
      ensures old(SeparatorsExact()) ==> SeparatorsExact()
    {
      hide Less, Ok, Pairs, FillOk, Entries, Stale, Exact, Spoils, StaleAfterDrop, Holds, Removed;
      ghost var t0, contents0 := Shape(), contents;
      var leaf, hops := FindLeaf(key);
      ExactMeansNoneStale(t0);
      LeafForm(t0, {}, leaf);
      var n := nodes[leaf];
      var position := 0;
      while position < |n.keys| && Less(At(n.keys[position]), At(key))
        invariant 0 <= position <= |n.keys|
        invariant position > 0 ==> Less(At(n.keys[position - 1]), At(key))
      {
        position := position + 1;
      }
      if position < |n.keys| && n.keys[position] == key {
        nodes := nodes[leaf := n.(values := n.values[position := n.values[position] + {docId}])];
        KeyIsStored(t0, leaf, position, key, contents0);
        contents := contents[key := contents[key] + {docId}];
        PostingChanged(t0, leaf, position, key, n.values[position] + {docId}, Shape(), contents0, contents);
        ChangedStale(t0, leaf, position, key, n.values[position] + {docId}, Shape(), contents0, contents);
        ExactMeansNoneStale(Shape());
        return;
      }
      AddKey(leaf, position, key, docId);
      assert {} + {docId} == {docId};
      ExactMeansNoneStale(Shape());
    }

    /** Puts a new key where it belongs in its leaf, and splits the leaf if that is one too many. */
    method AddKey(leaf: NodeId, position: nat, key: Key, docId: DocId)
      requires Valid() && leaf in nodes && leaf in spans && nodes[leaf].leaf && Covers(spans[leaf], key)
      requires position <= |nodes[leaf].keys| == |nodes[leaf].values|
      requires position > 0 ==> Less(At(nodes[leaf].keys[position - 1]), At(key))
      requires position < |nodes[leaf].keys| ==>
                 !Less(At(nodes[leaf].keys[position]), At(key)) && nodes[leaf].keys[position] != key
      modifies this
      ensures Valid() && key !in old(contents) && contents == old(contents)[key := {docId}]
      ensures Stale(nodes) == old(Stale(nodes)) - {key}
    {
      hide Less, Ok, Pairs, FillOk, Entries, Stale;
      ghost var t0, contents0 := Shape(), contents;
      var n := nodes[leaf];
      nodes := nodes[leaf := n.(keys := InsertAt(n.keys, position, key),
                                values := InsertAt(n.values, position, {docId}))];
      size := size + 1;
      contents := contents[key := {docId}];
      PostingAdded(t0, leaf, position, key, {docId}, Shape(), contents0, contents);
      AddedStale(t0, leaf, position, key, {docId}, Shape(), contents0, contents);
      if |nodes[leaf].keys| > maxKeys {
        SplitLeaf(leaf);
      }
    }

    /** Removes one document from a key, or the whole key, dropping the key with its last document. */
    method Delete(key: Key, docId: Option<DocId>) returns (removed: bool)
      requires Valid()
      modifies this
      ensures Valid()
      ensures removed == (key in old(contents) && (docId.Some? ==> docId.value in old(contents)[key]))
      ensures contents ==
              if !removed then old(contents)
              else if docId.None? || old(contents)[key] == {docId.value} then old(contents) - {key}
              else old(contents)[key := old(contents)[key] - {docId.value}]
      ensures if key in old(contents) && key !in contents then StaleAfterDrop(old(Shape()), key, Stale(nodes))
              else Stale(nodes) == old(Stale(nodes))
      ensures old(SeparatorsExact()) ==>
                forall leaf :: Holds(old(Shape()), leaf, key) ==>
                  (SeparatorsExact() <==> key in contents || !Spoils(old(Shape()), leaf, key))
    {
      hide Less, Ok, Pairs, FillOk, Entries, Stale, Exact, Spoils, StaleAfterDrop, Holds, Removed;
      ghost var t0, contents0 := Shape(), contents;
      var leaf, hops := FindLeaf(key);
      ExactMeansNoneStale(t0);
      LeafForm(t0, {}, leaf);
      var n := nodes[leaf];
      if key !in n.keys {
        KeyIsNew(t0, leaf, key, contents0);
        NotHeld(t0, key, contents0);
        return false;
      }
      var index := IndexOf(n.keys, key);
      KeyIsStored(t0, leaf, index, key, contents0);
      if docId.Some? {
        if docId.value !in n.values[index] {
          return false;
        }
        var rest := n.values[index] - {docId.value};
        if rest != {} {
          nodes := nodes[leaf := n.(values := n.values[index := rest])];
          contents := contents[key := rest];
          PostingChanged(t0, leaf, index, key, rest, Shape(), contents0, contents);
          ChangedStale(t0, leaf, index, key, rest, Shape(), contents0, contents);
          ExactMeansNoneStale(Shape());
          return true;
        }
      }
      DropKey(leaf, index);
      ExactAfterDelete(t0, key, Shape());
      removed := true;
    }

    /** Takes one key with its posting out of a leaf and mends the leaf if that leaves it underfull. */
    method DropKey(leaf: NodeId, index: nat)
      requires Valid() && leaf in nodes && leaf in spans && nodes[leaf].leaf
      requires index < |nodes[leaf].keys| == |nodes[leaf].values|
      requires Covers(spans[leaf], nodes[leaf].keys[index]) && nodes[leaf].keys[index] in contents
      modifies this
      ensures Valid() && contents == old(contents) - {old(nodes[leaf].keys[index])}
      ensures StaleAfterDrop(old(Shape()), old(nodes[leaf].keys[index]), Stale(nodes))
    {
      hide Less, Ok, Pairs, FillOk, Entries, Stale, StaleAfterDrop, Removed;
      ghost var t0, contents0 := Shape(), contents;
      var n := nodes[leaf];
      ghost var key := n.keys[index];
      nodes := nodes[leaf := n.(keys := RemoveAt(n.keys, index), values := RemoveAt(n.values, index))];
      size := size - 1;
      contents := contents - {key};
      PostingDropped(t0, leaf, index, key, Shape(), contents0, contents);
      ghost var t1 := Shape();
      if leaf != root && |nodes[leaf].keys| < LeafMin(maxKeys) {
        Rebalance(leaf);
      }
      DropLaw(t0, leaf, index, key, t1, contents0, contents, Stale(nodes));
    }

    /** Restores the minimum fill of a node, propagating upward. */
    method Rebalance(node: NodeId)
      requires Ok(Shape(), Whole, {node}) && forall n :: n in nodes ==> n < nextId
      requires node in nodes && |nodes[node].keys| <= maxKeys
      requires node != root ==> |nodes[node].keys| == MinKeys(maxKeys, nodes[node].leaf) - 1
      modifies this
      ensures Ok(Shape(), Whole, {}) && SameStore()
      ensures Stale(nodes) == old(Stale(nodes)) - Removed(old(Shape()), node)
      ensures nodes.Keys <= old(nodes.Keys) && IsMended(old(Shape()), node, Shape())
      decreases if root in spans && node in spans then spans[root].ht - spans[node].ht else 0, 1
    {
      hide Less, Ok, Pairs, FillOk, LinksOk, Entries, Stale, IsRecut;
      ghost var t0 := Shape();
      if node == root {
        // The root may underflow; an internal root left with one child gives way to it.
        RootForm(t0, {node});
        RootHasNoFamily(t0, {node});
        if !nodes[node].leaf && nodes[node].keys == [] {
          var child := nodes[node].children[0];
          nodes := nodes[child := nodes[child].(parent := None)] - {root};
          spans := spans - {root};
          root := child;
          Collapsed(t0, {node}, child, Shape());
          CollapseStale(t0, child, Shape());
        }
        return;
      }

      SiblingForm(t0, node);
      FamilyOf(t0, {node}, node);
      FamilyAlike(t0, {node}, node);
      var parent := nodes[node].parent.value;
      var index := IndexOf(nodes[parent].children, node);
      var min := MinKeys(maxKeys, nodes[node].leaf);
      if index > 0 && |nodes[nodes[parent].children[index - 1]].keys| > min {
        BorrowFromLeft(node, nodes[parent].children[index - 1], parent, index);
      } else if index < |nodes[parent].children| - 1 && |nodes[nodes[parent].children[index + 1]].keys| > min {
        BorrowFromRight(node, nodes[parent].children[index + 1], parent, index);
      } else if index > 0 {
        SiblingFill(t0, node, parent, index - 1);
        MergeNodes(nodes[parent].children[index - 1], node, parent, index - 1);
      } else {
        SiblingFill(t0, node, parent, index);
        MergeNodes(node, nodes[parent].children[index + 1], parent, index);
      }
    }

    method BorrowFromLeft(node: NodeId, left: NodeId, parent: NodeId, index: nat)
      requires Ok(Shape(), Whole, {node}) && forall n :: n in nodes ==> n < nextId
      requires index > 0 && Siblings(Shape(), parent, index - 1, left, node)
      requires node in nodes && left in nodes && |nodes[node].keys| == MinKeys(maxKeys, nodes[node].leaf) - 1
      requires |nodes[left].keys| > MinKeys(maxKeys, nodes[node].leaf)
      modifies this
      ensures Ok(Shape(), Whole, {}) && SameStore()
      ensures Stale(nodes) == old(Stale(nodes)) - old(if nodes[node].leaf then {nodes[parent].keys[index - 1]} else {})
      ensures old(left in nodes && |nodes[left].keys| > 0) &&
              IsRecut(old(Shape()), parent, index - 1, left, node, |old(nodes[left].keys)| - 1, Shape())
      ensures nodes.Keys == old(nodes.Keys)
    {
      hide Less, Ok, Pairs, FillOk, LinksOk, Entries, IsRecut, JoinedKeys, Stale;
      ghost var t0 := Shape();
      SiblingFacts(t0, {node}, parent, index - 1, left, node);
      SiblingShape(t0, {node}, left);
      SiblingShape(t0, {node}, node);
      var l, n, p := nodes[left], nodes[node], nodes[parent];
      var last := |l.keys| - 1;
      if n.leaf {
        nodes := nodes[left := l.(keys := l.keys[..last], values := l.values[..last])]
                      [node := n.(keys := [l.keys[last]] + n.keys, values := [l.values[last]] + n.values)]
                      [parent := p.(keys := p.keys[index - 1 := l.keys[last]])];
      } else {
        var child := l.children[last + 1];
        nodes := nodes[left := l.(keys := l.keys[..last], children := l.children[..last + 1])]
                      [node := n.(keys := [p.keys[index - 1]] + n.keys, children := [child] + n.children)]
                      [parent := p.(keys := p.keys[index - 1 := l.keys[last]])];
        SetParents([child], node);
      }
      spans := spans[left := spans[left].(hi := At(l.keys[last]))][node := spans[node].(lo := At(l.keys[last]))];
      BorrowLeftIsRecut(t0, node, left, parent, index, Shape());
      RecutSameNodes(t0, parent, index - 1, left, node, last, Shape());
      BorrowLeftFills(t0, node, left, parent, index, Shape());
      Borrowed(t0, node, parent, index - 1, left, node, last, Shape());
      RecutStale(t0, {node}, parent, index - 1, left, node, last, Shape());
    }

    method BorrowFromRight(node: NodeId, right: NodeId, parent: NodeId, index: nat)
      requires Ok(Shape(), Whole, {node}) && forall n :: n in nodes ==> n < nextId
      requires Siblings(Shape(), parent, index, node, right)
      requires node in nodes && right in nodes && |nodes[node].keys| == MinKeys(maxKeys, nodes[node].leaf) - 1
      requires |nodes[right].keys| > MinKeys(maxKeys, nodes[node].leaf)
      modifies this
      ensures Ok(Shape(), Whole, {}) && SameStore()
      ensures Stale(nodes) == old(Stale(nodes)) - old(if nodes[node].leaf then {nodes[parent].keys[index]} else {})
      ensures IsRecut(old(Shape()), parent, index, node, right, |old(nodes[node].keys)| + 1, Shape())
      ensures nodes.Keys == old(nodes.Keys)
    {
      hide Less, Ok, Pairs, FillOk, LinksOk, Entries, IsRecut, JoinedKeys, Stale;
      ghost var t0 := Shape();
      SiblingFacts(t0, {node}, parent, index, node, right);
      SiblingShape(t0, {node}, node);
      SiblingShape(t0, {node}, right);
      var n, r, p := nodes[node], nodes[right], nodes[parent];
      var separator := if n.leaf then r.keys[1] else r.keys[0];
      if n.leaf {
        nodes := nodes[node := n.(keys := n.keys + [r.keys[0]], values := n.values + [r.values[0]])]
                      [right := r.(keys := r.keys[1..], values := r.values[1..])]
                      [parent := p.(keys := p.keys[index := separator])];
      } else {
        var child := r.children[0];
        nodes := nodes[node := n.(keys := n.keys + [p.keys[index]], children := n.children + [child])]
                      [right := r.(keys := r.keys[1..], children := r.children[1..])]
                      [parent := p.(keys := p.keys[index := separator])];
        SetParents([child], node);
      }
      spans := spans[node := spans[node].(hi := At(separator))][right := spans[right].(lo := At(separator))];
      BorrowRightIsRecut(t0, node, right, parent, index, Shape());
      RecutSameNodes(t0, parent, index, node, right, |n.keys| + 1, Shape());
      BorrowRightFills(t0, node, right, parent, index, Shape());
      Borrowed(t0, node, parent, index, node, right, |n.keys| + 1, Shape());
      RecutStale(t0, {node}, parent, index, node, right, |n.keys| + 1, Shape());
    }

    /** Moves everything `right` holds over to `left`; nothing refers to the emptied node any more. */
    method Absorb(left: NodeId, right: NodeId, parent: NodeId, separatorIndex: nat)
      requires Ok(Shape(), Whole, {left, right}) && Siblings(Shape(), parent, separatorIndex, left, right)
      modifies `nodes, `spans
      ensures IsMerge(old(Shape()), parent, separatorIndex, left, right, Shape())
      ensures nodes.Keys == old(nodes.Keys) - {right}
    {
      hide Less, Ok, Pairs, FillOk, LinksOk, Entries, IsMerge, JoinedKeys;
      ghost var t0 := Shape();
      SiblingFacts(t0, {left, right}, parent, separatorIndex, left, right);
      SiblingShape(t0, {left, right}, left);
      SiblingShape(t0, {left, right}, right);
      var l, r, p := nodes[left], nodes[right], nodes[parent];
      if l.leaf {
        nodes := nodes[left := l.(keys := l.keys + r.keys, values := l.values + r.values, next := r.next)];
      } else {
        nodes := nodes[left := l.(keys := l.keys + [p.keys[separatorIndex]] + r.keys,
                                  children := l.children + r.children)];
        SetParents(r.children, left);
      }
      nodes := nodes[parent := nodes[parent].(keys := RemoveAt(p.keys, separatorIndex),
                                              children := RemoveAt(p.children, separatorIndex + 1))];
      nodes := nodes - {right};
      spans := spans[left := spans[left].(hi := spans[right].hi)] - {right};
      MergeIsMerge(t0, left, right, parent, separatorIndex, Shape());
      MergeDropsRight(t0, parent, separatorIndex, left, right, Shape());
    }

    /** Joins two siblings, which costs their parent a separator, and goes on to mend the parent. */
    method MergeNodes(left: NodeId, right: NodeId, parent: NodeId, separatorIndex: nat)
      requires left in nodes && right in nodes && (Ok(Shape(), Whole, {left}) || Ok(Shape(), Whole, {right}))
      requires Siblings(Shape(), parent, separatorIndex, left, right) && forall n :: n in nodes ==> n < nextId
      requires |nodes[left].keys| + |nodes[right].keys| == 2 * MinKeys(maxKeys, nodes[left].leaf) - 1
      modifies this
      ensures Ok(Shape(), Whole, {}) && SameStore()
      ensures Stale(nodes) ==
              old(Stale(nodes)) - old(if nodes[left].leaf then {nodes[parent].keys[separatorIndex]} else {})
      ensures nodes.Keys <= old(nodes.Keys) && right !in nodes
      decreases if root in spans && left in spans then spans[root].ht - spans[left].ht else 0, 0
    {
      hide Less, Ok, Pairs, FillOk, LinksOk, Entries, IsMerge, Stale;
      ghost var t0 := Shape();
      OddEither(t0, left, right);
      SiblingFacts(t0, {left, right}, parent, separatorIndex, left, right);
      ArenaOk(t0, {left, right});
      Absorb(left, right, parent, separatorIndex);
      ghost var t1 := Shape();
      Merged(t0, left, right, parent, separatorIndex, t1);
      MergeStale(t0, {left, right}, parent, separatorIndex, left, right, t1);
      if parent == root && nodes[parent].keys == [] {
        root := left;
        nodes := nodes[left := nodes[left].(parent := None)] - {parent};
        spans := spans - {parent};
        Collapsed(t1, {parent}, left, Shape());
        CollapseStale(t1, left, Shape());
      } else if parent != root && |nodes[parent].keys| < InternalMin(maxKeys) {
        Rebalance(parent);
      }
    }

    /** Point lookup: the documents filed under a key, none when it is absent, after logarithmically many hops. */
    method Search(key: Key) returns (docs: set<DocId>, ghost hops: nat)
      requires Valid()
      ensures docs == if key in contents then contents[key] else {}
      ensures hops >= 1 ==> Pow(2, hops + 1) <= |contents|
    {
      hide Less, Ok, Pairs, Entries, Covers;
      HeightIsLogarithmic(Shape(), contents);
      var leaf;
      leaf, hops := FindLeaf(key);
      LeafForm(Shape(), {}, leaf);
      if key in nodes[leaf].keys {
        var index := IndexOf(nodes[leaf].keys, key);
        KeyIsStored(Shape(), leaf, index, key, contents);
        docs := nodes[leaf].values[index];
      } else {
        KeyIsNew(Shape(), leaf, key, contents);
        docs := {};
      }
    }

    /** Every posting in ascending order of keys, read off the leaf chain. */
    method AllEntries() returns (result: seq<Entry>)
      requires Valid()
      ensures Lists(contents, result, Low, High)
    {
      hide Less, Ok, Pairs, Entries, Lists, Ahead, LinksOk;
      ghost var t := Shape();
      ArenaOk(t, {});
      var first := LeftmostLeaf();
      result := [];
      NothingBelowLow(contents);
      var node := Some(first);
      while node.Some?
        invariant node.Some? ==> node.value in nodes && node.value in spans && nodes[node.value].leaf
        invariant Lists(contents, result, Low, if node.Some? then spans[node.value].lo else High)
        decreases node.Some?, if node.Some? && node.value in spans then Ahead(t, node.value) else {}
      {
        var leaf := node.value;
        LeafForm(t, {}, leaf);
        EnterLeaf(t, leaf, contents, result, Low);
        for i := 0 to |nodes[leaf].keys|
          invariant Lists(contents, result, Low, Edge(t, leaf, i))
        {
          PassKey(t, leaf, i, contents, result, Low);
          NotBelowLow(nodes[leaf].keys[i]);
          result := result + [(nodes[leaf].keys[i], nodes[leaf].values[i])];
        }
        node := nodes[leaf].next;
        if node.Some? {
          NextIsAhead(t, leaf, node.value);
        } else {
          LastLeaf(t, leaf);
        }
      }
    }

    method LeftmostLeaf() returns (leaf: NodeId)
      requires Ok(Shape(), Whole, {})
      ensures leaf in nodes && leaf in spans && nodes[leaf].leaf && spans[leaf].lo == Low
    {
      hide Less;
      leaf := root;
      assert LinksOk(Shape(), Whole, root);
      while !nodes[leaf].leaf
        invariant leaf in nodes && spans[leaf].lo == Low
        decreases spans[leaf].ht
      {
        assert LinksOk(Shape(), Whole, leaf) && ChildOk(Shape(), Whole, leaf, 0);
        leaf := nodes[leaf].children[0];
      }
    }

    /** Number of levels from the root to the leaves; a tall tree is full. */
    method Height() returns (height: nat)
      requires Valid()
      ensures height == spans[root].ht + 1
      ensures height >= 2 ==> |contents| >= 2 * (Pow(InternalMin(maxKeys) + 1, height - 2) * LeafMin(maxKeys))
      ensures height >= 2 ==> Pow(2, height) <= |contents|
    {
      hide Less, Entries;
      TallTreesAreFull(Shape(), contents);
      HeightIsLogarithmic(Shape(), contents);
      height := 1;
      var node := root;
      assert LinksOk(Shape(), Whole, root);
      while !nodes[node].leaf
        invariant node in nodes && node in spans && height + spans[node].ht == spans[root].ht + 1
        decreases spans[node].ht
      {
        assert LinksOk(Shape(), Whole, node) && ChildOk(Shape(), Whole, node, 0);
        node := nodes[node].children[0];
        height := height + 1;
      }
      assert LinksOk(Shape(), Whole, node);
    }

    /** Inclusive range scan along the leaf chain. */
    method RangeScan(from: Key, to: Key) returns (result: seq<Entry>)
      requires Valid()
      ensures Ascends(result)
      ensures forall e :: e in result <==>
                e in contents.Items && AtMost(At(from), At(e.0)) && AtMost(At(e.0), At(to))
    {
      hide Less, Ok, Pairs, Entries, Lists, Ahead, LinksOk;
      ghost var t := Shape();
      ArenaOk(t, {});
      var first, hops := FindLeaf(from);
      result := [];
      NothingBefore(contents, At(from), spans[first].lo);
      var node := Some(first);
      while node.Some?
        invariant node.Some? ==> node.value in nodes && node.value in spans && nodes[node.value].leaf
        invariant Lists(contents, result, At(from), if node.Some? then spans[node.value].lo else High)
        invariant UpTo(result, to)
        decreases node.Some?, if node.Some? && node.value in spans then Ahead(t, node.value) else {}
      {
        var leaf := node.value;
        LeafForm(t, {}, leaf);
        EnterLeaf(t, leaf, contents, result, At(from));
        var i := 0;
        while i < |nodes[leaf].keys|
          invariant 0 <= i <= |nodes[leaf].keys|
          invariant Lists(contents, result, At(from), Edge(t, leaf, i)) && UpTo(result, to)
        {
          var key := nodes[leaf].keys[i];
          PassKey(t, leaf, i, contents, result, At(from));
          if !Less(At(key), At(from)) {
            if Less(At(to), At(key)) {
              RangeDone(contents, result, from, to, At(key));
              return;
            }
            LessTotal(At(key), At(to));
            result := result + [(key, nodes[leaf].values[i])];
          }
          i := i + 1;
        }
        node := nodes[leaf].next;
        if node.Some? {
          NextIsAhead(t, leaf, node.value);
        } else {
          LastLeaf(t, leaf);
        }
      }
      BelowHigh(to);
      RangeDone(contents, result, from, to, High);
    }
  }
}
