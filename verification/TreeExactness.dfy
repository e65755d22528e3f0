/** When dropping a key leaves every separator the smallest key stored to its right, and when it does not. */
module TreeExactness {
  import opened Collections
  import opened Keys
  import opened TreeShape
  import opened TreeMerge
  import opened TreeEntries
  import opened TreeUpdate
  import opened TreeSeparators

  /** The node has a parent that lists it among at least two children. */
  predicate InFamily(t: Tree, n: NodeId) {
    && n in t.nodes && t.nodes[n].parent.Some? && t.nodes[n].parent.value in t.nodes
    && var p := t.nodes[t.nodes[n].parent.value];
       && n in p.children && 2 <= |p.children| == |p.keys| + 1
       && forall c :: c in p.children ==> c in t.nodes
  }

  predicate CanLend(t: Tree, n: NodeId)
    requires n in t.nodes
  {
    |t.nodes[n].keys| > MinKeys(t.maxKeys, t.nodes[n].leaf)
  }

  /** Mending an underfull node involves its left sibling: that one lends a key, or no right one does. */
  predicate MendsLeft(t: Tree, n: NodeId)
    requires InFamily(t, n)
  {
    var children := t.nodes[t.nodes[n].parent.value].children;
    var index := IndexOf(children, n);
    && index > 0
    && (CanLend(t, children[index - 1]) || !(index + 1 < |children| && CanLend(t, children[index + 1])))
  }

  /**
    * How an underfull node was mended: by a key from its left sibling if that can lend one, else by a key from the
    * right one if that can, else by joining it with the left sibling or, without one, with the right one.
    */
  ghost predicate IsMended(t: Tree, n: NodeId, t1: Tree) {
    InFamily(t, n) ==>
      var p := t.nodes[n].parent.value;
      var children := t.nodes[p].children;
      var i := IndexOf(children, n);
      if i > 0 && CanLend(t, children[i - 1]) then
        |t.nodes[children[i - 1]].keys| > 0 &&
        IsRecut(t, p, i - 1, children[i - 1], n, |t.nodes[children[i - 1]].keys| - 1, t1)
      else if i + 1 < |children| && CanLend(t, children[i + 1]) then
        IsRecut(t, p, i, n, children[i + 1], |t.nodes[n].keys| + 1, t1)
      else (if i > 0 then n else children[1]) !in t1.nodes
  }

  /** The separator that mending an underfull leaf replaces or removes. */
  function Removed(t: Tree, n: NodeId): set<Key> {
    if InFamily(t, n) && t.nodes[n].leaf then
      var p := t.nodes[t.nodes[n].parent.value];
      var index := IndexOf(p.children, n);
      {p.keys[if MendsLeft(t, n) then index - 1 else index]}
    else {}
  }

  /** The separator that dropping one key of a leaf replaces or removes. */
  function Rewritten(t: Tree, leaf: NodeId): set<Key> {
    if leaf in t.nodes && |t.nodes[leaf].keys| <= LeafMin(t.maxKeys) then Removed(t, leaf) else {}
  }

  predicate Holds(t: Tree, leaf: NodeId, key: Key) {
    leaf in t.nodes && t.nodes[leaf].leaf && key in t.nodes[leaf].keys
  }

  /** The stale separators that remain when `key` is dropped from a tree. */
  ghost predicate StaleAfterDrop(t: Tree, key: Key, stale: set<Key>) {
    forall leaf :: Holds(t, leaf, key) ==>
      stale == Stale(t.nodes) + ({key} * Separators(t.nodes)) - Rewritten(t, leaf)
  }

  /**
   * Dropping `key` leaves a separator behind that is not stored: `key` is a separator itself, and its leaf
   * stays full enough, is the first child of its parent, or takes a key from the right because the left
   * sibling has none to lend.
   */
  predicate Spoils(t: Tree, leaf: NodeId, key: Key) {
    && leaf in t.nodes && key in Separators(t.nodes)
    && (|t.nodes[leaf].keys| > LeafMin(t.maxKeys) || !InFamily(t, leaf) || !MendsLeft(t, leaf))
  }

  lemma FamilyOf(t: Tree, odd: set<NodeId>, n: NodeId)
    requires Ok(t, Whole, odd) && n in t.nodes && n != t.root
    requires t.nodes[n].parent.Some? && t.nodes[n].parent.value in t.nodes ==> t.nodes[n].parent.value !in odd
    ensures InFamily(t, n)
  {
    hide Less;
    assert LinksOk(t, Whole, n);
    var p := t.nodes[n].parent.value;
    OddMore(t, Whole, odd);
    ParentOfChild(t, p, n);
    ChildFacts(t, Whole, p);
    assert LinksOk(t, Whole, p) && FillOk(t, p);
  }

  /** Siblings are all leaves or all internal nodes. */
  lemma FamilyAlike(t: Tree, odd: set<NodeId>, n: NodeId)
    requires Ok(t, Whole, odd) && InFamily(t, n)
    ensures forall c :: c in t.nodes[t.nodes[n].parent.value].children ==> t.nodes[c].leaf == t.nodes[n].leaf
  {
    var p := t.nodes[n].parent.value;
    OddMore(t, Whole, odd);
    ChildFacts(t, Whole, p);
    assert LinksOk(t, Whole, n);
    forall c | c in t.nodes[p].children
      ensures t.nodes[c].leaf == t.nodes[n].leaf
    {
      assert LinksOk(t, Whole, c);
    }
  }

  /** A key that is not stored is held by no leaf. */
  lemma NotHeld(t: Tree, key: Key, contents: map<Key, set<DocId>>)
    requires Ok(t, Whole, {}) && Entries(t.nodes) == contents.Items && key !in contents
    ensures forall leaf :: !Holds(t, leaf, key)
  {
    StoredIsContents(t.nodes, contents);
    forall leaf
      ensures !Holds(t, leaf, key)
    {
      if Holds(t, leaf, key) {
        LeafKeys(t, leaf, key);
      }
    }
  }

  lemma RootHasNoFamily(t: Tree, odd: set<NodeId>)
    requires Ok(t, Whole, odd)
    ensures !InFamily(t, t.root)
  {
    assert LinksOk(t, Whole, t.root);
  }

  /** Which separator goes does not depend on what the leaf itself holds. */
  lemma RemovedAlike(t: Tree, leaf: NodeId, t1: Tree)
    requires Ok(t, Whole, {}) && IsLeafChange(t, leaf, t1) && InFamily(t, leaf)
    ensures InFamily(t1, leaf) && Removed(t1, leaf) == Removed(t, leaf)
  {
    var p := t.nodes[leaf].parent.value;
    OddMore(t, Whole, {});
    ParentOfChild(t, p, leaf);
    var children := t.nodes[p].children;
    var index := IndexOf(children, leaf);
    if index > 0 {
      ChildrenDistinct(t, Whole, p, index - 1, index);
    }
    if index + 1 < |children| {
      ChildrenDistinct(t, Whole, p, index, index + 1);
    }
    hide Ok, Less;
    assert t1.nodes[p] == t.nodes[p];
    assert MendsLeft(t1, leaf) == MendsLeft(t, leaf);
  }

  lemma OnlyHolder(t: Tree, leaf: NodeId, key: Key)
    requires Ok(t, Whole, {}) && Holds(t, leaf, key) && Covers(t.spans[leaf], key)
    ensures forall other :: Holds(t, other, key) ==> other == leaf
  {
    forall other | Holds(t, other, key)
      ensures other == leaf
    {
      CoveringLeafIsUnique(t, {}, leaf, other, key);
    }
  }

  /** Dropping a posting, and mending the leaf if that is called for, changes the stale separators as foreseen. */
  lemma DropLaw(t: Tree, leaf: NodeId, index: nat, key: Key, t1: Tree,
                contents: map<Key, set<DocId>>, contents1: map<Key, set<DocId>>, stale: set<Key>)
    requires Ok(t, Whole, {}) && IsPostingDrop(t, leaf, index, key, t1)
    requires Entries(t.nodes) == contents.Items && Entries(t1.nodes) == contents1.Items
    requires key in contents && contents1 == contents - {key}
    requires stale == Stale(t1.nodes) -
                      if leaf != t1.root && |t1.nodes[leaf].keys| < LeafMin(t.maxKeys) then Removed(t1, leaf) else {}
    ensures StaleAfterDrop(t, key, stale)
  {
    assert IsLeafChange(t, leaf, t1);
    LeafChangeStale(t, leaf, t1, contents, contents1);
    assert Stale(t1.nodes) == Stale(t.nodes) + ({key} * Separators(t.nodes));
    OnlyHolder(t, leaf, key);
    if leaf == t.root {
      RootHasNoFamily(t, {});
    } else {
      FamilyOf(t, {}, leaf);
      RemovedAlike(t, leaf, t1);
    }
    hide Ok, Stale, Separators, Removed, IsLeafChange, Entries, Covers;
  }

  /** With exact separators, dropping a key leaves them exact if and only if it does not spoil them. */
  lemma ExactAfterDrop(t: Tree, leaf: NodeId, key: Key, stale: set<Key>)
    requires Ok(t, Whole, {}) && Stale(t.nodes) == {} && Holds(t, leaf, key) && StaleAfterDrop(t, key, stale)
    ensures stale == {} <==> !Spoils(t, leaf, key)
  {
    hide Ok, Stale, Separators, Removed, MendsLeft, InFamily;
    assert stale == {key} * Separators(t.nodes) - Rewritten(t, leaf);
    if leaf == t.root {
      RootHasNoFamily(t, {});
      RemovedNothing(t, leaf);
    } else {
      FamilyOf(t, {}, leaf);
      if key in Separators(t.nodes) {
        LeftSeparator(t, leaf, key);
      }
    }
    if key in Separators(t.nodes) && key !in Rewritten(t, leaf) {
      assert key in stale;
    }
  }

  lemma RemovedNothing(t: Tree, n: NodeId)
    requires !InFamily(t, n)
    ensures Removed(t, n) == {}
  {
  }

  lemma ExactAfterDelete(t: Tree, key: Key, t1: Tree)
    requires Ok(t, Whole, {}) && Ok(t1, Whole, {}) && StaleAfterDrop(t, key, Stale(t1.nodes))
    ensures Grounded(t) && Grounded(t1)
    ensures Exact(t) ==> forall leaf :: Holds(t, leaf, key) ==> (Exact(t1) <==> !Spoils(t, leaf, key))
  {
    ExactMeansNoneStale(t);
    ExactMeansNoneStale(t1);
    hide Ok, Exact, Stale, Spoils, StaleAfterDrop;
    if Exact(t) {
      forall leaf | Holds(t, leaf, key)
        ensures Exact(t1) <==> !Spoils(t, leaf, key)
      {
        ExactAfterDrop(t, leaf, key, Stale(t1.nodes));
      }
    }
  }

  /** Of the separators on either side of a leaf, one that the leaf holds is the left one. */
  lemma LeftSeparator(t: Tree, leaf: NodeId, key: Key)
    requires Ok(t, Whole, {}) && Holds(t, leaf, key) && InFamily(t, leaf) && key in Separators(t.nodes)
    ensures key in Removed(t, leaf) <==> MendsLeft(t, leaf)
  {
    assert LinksOk(t, Whole, leaf);
    LeafKeys(t, leaf, key);
    CoveredSeparator(t, {}, leaf, key);
    var p := t.nodes[leaf].parent.value;
    var index := IndexOf(t.nodes[p].children, leaf);
    assert LinksOk(t, Whole, p) && ChildOk(t, Whole, p, index);
    LessTotal(At(key), At(key));
    hide Ok, Less, Separators;
  }

  // ---------------------------------------------------------------------
  // An input
  // ---------------------------------------------------------------------

  /** Five keys inserted in order with room for three in a node. */
  function FiveKeys(): Tree {
    Tree(3,
         map[0 := BNode(true, ["a", "b"], [{1}, {1}], [], Some(1), Some(2)),
             1 := BNode(true, ["c", "d", "e"], [{1}, {1}, {1}], [], None, Some(2)),
             2 := BNode(false, ["c"], [], [0, 1], None, None)],
         map[0 := Span(Low, At("c"), 0), 1 := Span(At("c"), High, 0), 2 := Span(Low, High, 1)],
         2)
  }

  /** The same tree after "c" is gone: its leaf is still half full, so nothing is mended. */
  function FourKeys(): Tree {
    FiveKeys().(nodes := FiveKeys().nodes[1 := FiveKeys().nodes[1].(keys := ["d", "e"], values := [{1}, {1}])])
  }

  lemma LettersInOrder()
    ensures Sorted(["a", "b"]) && InRange(["a", "b"], Low, At("c"), false)
    ensures Sorted(["c", "d", "e"]) && InRange(["c", "d", "e"], At("c"), High, false)
    ensures Sorted(["c"]) && InRange(["c"], Low, High, true)
  {
    assert Lt("a", "b") && Lt("a", "c") && Lt("b", "c") && Lt("c", "d") && Lt("c", "e") && Lt("d", "e");
  }

  lemma FiveKeysOk()
    ensures Ok(FiveKeys(), Whole, {})
  {
    LettersInOrder();
    hide Less, Sorted, InRange;
    var t := FiveKeys();
    assert LinksOk(t, Whole, 0) && FillOk(t, 0);
    assert LinksOk(t, Whole, 1) && FillOk(t, 1);
    assert LinksOk(t, Whole, 2) && FillOk(t, 2);
    hide LinksOk, FillOk;
  }

  lemma FourKeysDrop()
    ensures IsPostingDrop(FiveKeys(), 1, 0, "c", FourKeys())
  {
    assert RemoveAt(["c", "d", "e"], 0) == ["d", "e"] && RemoveAt([{1}, {1}, {1}], 0) == [{1}, {1}];
    hide Less;
    assert Covers(Span(At("c"), High, 0), "c");
  }

  lemma StoredThere()
    ensures Separators(FiveKeys().nodes) == {"c"} == Separators(FourKeys().nodes)
    ensures "c" in Stored(FiveKeys().nodes) && "c" !in Stored(FourKeys().nodes)
  {
    var t, t1 := FiveKeys(), FourKeys();
    assert forall n :: SeparatorsAt(t.nodes, n) == if n == 2 then {"c"} else {};
    assert forall n :: SeparatorsAt(t1.nodes, n) == if n == 2 then {"c"} else {};
    assert "c" in SeparatorsAt(t.nodes, 2) && "c" in SeparatorsAt(t1.nodes, 2);
    assert "c" in t.nodes[1].keys;
    StoredAt(t.nodes, 1, "c");
    forall n, e | e in EntriesAt(t1.nodes, n)
      ensures e.0 != "c"
    {
      assert n == 0 || n == 1;
    }
    hide EntriesAt;
  }

  lemma DeletionSpoils()
    ensures Ok(FiveKeys(), Whole, {}) && IsPostingDrop(FiveKeys(), 1, 0, "c", FourKeys())
    ensures Ok(FourKeys(), Whole, {})
    ensures Grounded(FiveKeys()) && Exact(FiveKeys()) && Spoils(FiveKeys(), 1, "c")
    ensures Grounded(FourKeys()) && !Exact(FourKeys())
  {
    FiveKeysOk();
    FourKeysDrop();
    hide Ok, Less;
    DroppedShape(FiveKeys(), 1, 0, "c", FourKeys());
    StoredThere();
    ExactMeansNoneStale(FiveKeys());
    ExactMeansNoneStale(FourKeys());
  }
}
