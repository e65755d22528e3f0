/** The shape of a B+-tree in an arena of nodes: what keeps `validate` quiet, and the chain of leaves. */
module TreeShape {
  import opened Collections
  import opened Keys

  type NodeId = nat
  type DocId = int

  datatype BNode = BNode(
    leaf: bool,
    keys: seq<Key>,
    values: seq<set<DocId>>,
    children: seq<NodeId>,
    next: Option<NodeId>,
    parent: Option<NodeId>)

  /** The key range a node is responsible for, and its height above the leaves. */
  datatype Span = Span(lo: Bound, hi: Bound, ht: nat)

  datatype Tree = Tree(maxKeys: nat, nodes: map<NodeId, BNode>, spans: map<NodeId, Span>, root: NodeId)

  /** A node that was just split off to the right of another and is not in its parent yet. */
  datatype Split = Whole | Split(left: NodeId, right: NodeId)

  function LeafMin(maxKeys: nat): nat { (maxKeys + 1) / 2 }

  function InternalMin(maxKeys: nat): int { (maxKeys + 2) / 2 - 1 }

  function MinKeys(maxKeys: nat, leaf: bool): int {
    if leaf then LeafMin(maxKeys) else InternalMin(maxKeys)
  }

  /** The range that the parent of `c` sets aside for it. */
  function Allotted(t: Tree, split: Split, c: NodeId): Span
    requires c in t.spans && (split.Split? ==> split.right in t.spans)
  {
    if split.Split? && c == split.left then Span(t.spans[c].lo, t.spans[split.right].hi, t.spans[c].ht) else t.spans[c]
  }

  /** The range between the separators around child `i`. */
  function Slot(n: BNode, s: Span, i: nat): Span
    requires i <= |n.keys| && s.ht > 0
  {
    Span(if i == 0 then s.lo else At(n.keys[i - 1]), if i == |n.keys| then s.hi else At(n.keys[i]), s.ht - 1)
  }

  /**
    * The keys of one node are in order and in range. A leaf may hold the lower end of its range. An internal node may
    * not, although `validate` would let it: the child to the left of such a separator could cover no key.
    */
  predicate FormOk(n: BNode, s: Span) {
    && n.leaf == (s.ht == 0)
    && Sorted(n.keys)
    && InRange(n.keys, s.lo, s.hi, !n.leaf)
    && (if n.leaf then |n.values| == |n.keys| && n.children == []
        else n.values == [] && |n.children| == |n.keys| + 1 && n.next == None)
  }

  predicate ChildOk(t: Tree, split: Split, p: NodeId, i: nat)
    requires p in t.nodes && p in t.spans && t.spans[p].ht > 0
    requires i < |t.nodes[p].children| <= |t.nodes[p].keys| + 1
  {
    var c := t.nodes[p].children[i];
    && c in t.nodes && c in t.spans && (split.Split? ==> split.right in t.spans && c != split.right)
    && t.nodes[c].parent == Some(p)
    && Allotted(t, split, c) == Slot(t.nodes[p], t.spans[p], i)
  }

  predicate UpOk(t: Tree, split: Split, n: NodeId)
    requires n in t.nodes && n in t.spans && t.root in t.spans && (split.Split? ==> split.right in t.spans)
  {
    if n == t.root then t.nodes[n].parent == None && Allotted(t, split, n).lo == Low && Allotted(t, split, n).hi == High
    else
      && t.spans[n].ht <= t.spans[t.root].ht
      && (if split.Split? && n == split.right then true
          else
            && t.nodes[n].parent.Some?
            && t.nodes[n].parent.value in t.nodes
            && n in t.nodes[t.nodes[n].parent.value].children
            && t.spans[n].ht < t.spans[t.root].ht)
  }

  predicate NextOk(t: Tree, n: NodeId)
    requires n in t.nodes && n in t.spans
  {
    match t.nodes[n].next
    case None => t.nodes[n].leaf ==> t.spans[n].hi == High
    case Some(m) => m in t.nodes && m in t.spans && t.nodes[m].leaf && t.spans[m].lo == t.spans[n].hi
  }

  predicate FillOk(t: Tree, n: NodeId)
    requires n in t.nodes
  {
    && |t.nodes[n].keys| <= t.maxKeys
    && (if n == t.root then t.nodes[n].leaf || |t.nodes[n].keys| >= 1
        else |t.nodes[n].keys| >= MinKeys(t.maxKeys, t.nodes[n].leaf))
  }

  /** Everything that one node has to satisfy, apart from how full it is. */
  predicate LinksOk(t: Tree, split: Split, n: NodeId)
    requires n in t.nodes && n in t.spans && t.root in t.spans && (split.Split? ==> split.right in t.spans)
  {
    && FormOk(t.nodes[n], t.spans[n])
    && (forall i :: 0 <= i < |t.nodes[n].children| ==> ChildOk(t, split, n, i))
    && UpOk(t, split, n)
    && NextOk(t, n)
  }

  /** The halves of a split meet at the separator. */
  predicate SplitOk(t: Tree, split: Split)
    requires t.nodes.Keys == t.spans.Keys
  {
    split.Split? ==>
      && split.left in t.nodes && split.right in t.nodes && split.left != split.right && split.right != t.root
      && t.spans[split.left].hi == t.spans[split.right].lo && t.spans[split.left].hi.At?
      && t.spans[split.left].ht == t.spans[split.right].ht
      && Less(t.spans[split.left].lo, t.spans[split.left].hi) && Less(t.spans[split.right].lo, t.spans[split.right].hi)
      && t.nodes[split.right].parent == t.nodes[split.left].parent
  }

  /** The tree invariant, except that the nodes in `odd` may be too full or too empty. */
  ghost predicate Ok(t: Tree, split: Split, odd: set<NodeId>) {
    && t.maxKeys >= 3
    && t.nodes.Keys == t.spans.Keys && t.root in t.nodes
    && SplitOk(t, split)
    && (forall n {:trigger LinksOk(t, split, n)} :: n in t.nodes ==> LinksOk(t, split, n))
    && (forall n {:trigger FillOk(t, n)} :: n in t.nodes && n !in odd ==> FillOk(t, n))
  }

  /** Walking down the children of any node comes to an end. */
  ghost predicate Grounded(t: Tree) {
    && t.nodes.Keys == t.spans.Keys && t.root in t.nodes
    && forall n, c :: n in t.nodes && c in t.nodes[n].children ==> c in t.nodes && t.spans[c].ht < t.spans[n].ht
  }

  lemma ChildrenDistinct(t: Tree, split: Split, p: NodeId, i: nat, j: nat)
    requires Ok(t, split, t.nodes.Keys) && p in t.nodes
    requires i < |t.nodes[p].children| && j < |t.nodes[p].children| && i != j
    ensures t.nodes[p].children[i] != t.nodes[p].children[j]
  {
    hide Less;
    assert LinksOk(t, split, p) && ChildOk(t, split, p, i) && ChildOk(t, split, p, j);
    var a, b := if i < j then i else j, if i < j then j else i;
    var n, s := t.nodes[p], t.spans[p];
    var lo := if a == 0 then s.lo else At(n.keys[a - 1]);
    assert Less(lo, At(n.keys[b - 1]));
    LessTotal(lo, lo);
  }

  lemma ArenaOk(t: Tree, odd: set<NodeId>)
    requires Ok(t, Whole, odd)
    ensures t.nodes.Keys == t.spans.Keys && t.root in t.nodes
  {
  }

  lemma OddMore(t: Tree, split: Split, odd: set<NodeId>)
    requires Ok(t, split, odd)
    ensures Ok(t, split, t.nodes.Keys)
  {
  }

  // ---------------------------------------------------------------------
  // Splitting a leaf
  // ---------------------------------------------------------------------

  function SplitLeafNodes(t: Tree, leaf: NodeId, right: NodeId): map<NodeId, BNode>
    requires leaf in t.nodes && |t.nodes[leaf].keys| == |t.nodes[leaf].values|
  {
    var n := t.nodes[leaf];
    var mid := (|n.keys| + 1) / 2;
    t.nodes[leaf := n.(keys := n.keys[..mid], values := n.values[..mid], next := Some(right))]
           [right := BNode(true, n.keys[mid..], n.values[mid..], [], n.next, n.parent)]
  }

  function SplitSpans(t: Tree, left: NodeId, right: NodeId, separator: Key): map<NodeId, Span>
    requires left in t.spans
  {
    var s := t.spans[left];
    t.spans[left := Span(s.lo, At(separator), s.ht)][right := Span(At(separator), s.hi, s.ht)]
  }

  ghost predicate IsLeafSplit(t: Tree, leaf: NodeId, right: NodeId, t1: Tree)
  {
    && leaf in t.nodes && leaf in t.spans && t.nodes[leaf].leaf && right !in t.nodes
    && |t.nodes[leaf].keys| == t.maxKeys + 1 == |t.nodes[leaf].values| && t.maxKeys >= 3
    && t1 == t.(nodes := SplitLeafNodes(t, leaf, right),
                spans := SplitSpans(t, leaf, right, t.nodes[leaf].keys[(|t.nodes[leaf].keys| + 1) / 2]))
  }

  lemma SplitLeafHalves(t: Tree, leaf: NodeId, right: NodeId, t1: Tree)
    requires Ok(t, Whole, {leaf}) && IsLeafSplit(t, leaf, right, t1)
    ensures LinksOk(t1, Split(leaf, right), leaf) && LinksOk(t1, Split(leaf, right), right)
    ensures FillOk(t1, right) && LeafMin(t.maxKeys) <= |t1.nodes[leaf].keys| <= t.maxKeys
    ensures SplitOk(t1, Split(leaf, right))
  {
    hide Less;
    assert LinksOk(t, Whole, leaf);
    var n := t.nodes[leaf];
    var mid := (|n.keys| + 1) / 2;
    assert mid < |n.keys| && t1.nodes[right].keys[0] == n.keys[mid];
    LessTrans(t.spans[leaf].lo, At(n.keys[0]), At(n.keys[mid]));
  }

  lemma SplitLeafOthers(t: Tree, leaf: NodeId, right: NodeId, t1: Tree, m: NodeId)
    requires Ok(t, Whole, {leaf}) && IsLeafSplit(t, leaf, right, t1)
    requires m in t.nodes && m != leaf
    ensures LinksOk(t1, Split(leaf, right), m) && FillOk(t1, m)
  {
    hide Less, Sorted, InRange;
    assert LinksOk(t, Whole, m) && FillOk(t, m) && LinksOk(t, Whole, leaf);
    var split := Split(leaf, right);
    forall i | 0 <= i < |t1.nodes[m].children|
      ensures ChildOk(t1, split, m, i)
    {
      assert ChildOk(t, Whole, m, i);
    }
  }

  lemma SplitLeafOk(t: Tree, leaf: NodeId, right: NodeId, t1: Tree)
    requires Ok(t, Whole, {leaf}) && IsLeafSplit(t, leaf, right, t1)
    ensures Ok(t1, Split(leaf, right), {leaf}) && LeafMin(t.maxKeys) <= |t1.nodes[leaf].keys| <= t.maxKeys
  {
    SplitLeafHalves(t, leaf, right, t1);
    assert t1.nodes.Keys == t1.spans.Keys;
    forall m | m in t1.nodes && m != leaf && m != right
      ensures LinksOk(t1, Split(leaf, right), m) && FillOk(t1, m)
    {
      SplitLeafOthers(t, leaf, right, t1, m);
    }
    hide LinksOk, FillOk, SplitOk;
  }

  // ---------------------------------------------------------------------
  // Inserting a separator into the parent
  // ---------------------------------------------------------------------

  lemma InsertSorted(keys: seq<Key>, i: nat, key: Key)
    requires Sorted(keys) && i <= |keys|
    requires i > 0 ==> Less(At(keys[i - 1]), At(key))
    requires i < |keys| ==> Less(At(key), At(keys[i]))
    ensures Sorted(InsertAt(keys, i, key))
  {
    hide Less;
    var ks := InsertAt(keys, i, key);
    assert forall j :: 0 <= j < |ks| ==> ks[j] == if j < i then keys[j] else if j == i then key else keys[j - 1];
    forall j | 0 <= j < i
      ensures Less(At(keys[j]), At(key))
    {
      if j < i - 1 {
        LessTrans(At(keys[j]), At(keys[i - 1]), At(key));
      }
    }
    forall j | i <= j < |keys|
      ensures Less(At(key), At(keys[j]))
    {
      if i < j {
        LessTrans(At(key), At(keys[i]), At(keys[j]));
      }
    }
  }

  ghost predicate IsNewRoot(t: Tree, left: NodeId, separator: Key, right: NodeId, id: NodeId, t1: Tree) {
    && left in t.nodes && right in t.nodes && left in t.spans && left == t.root && id !in t.nodes
    && t1 == Tree(t.maxKeys,
                  t.nodes[left := t.nodes[left].(parent := Some(id))]
                         [right := t.nodes[right].(parent := Some(id))]
                         [id := BNode(false, [separator], [], [left, right], None, None)],
                  t.spans[id := Span(Low, High, t.spans[left].ht + 1)],
                  id)
  }

  /** The left half of a split holds enough keys, and the separator is where the halves meet. */
  ghost predicate SplitReady(t: Tree, left: NodeId, separator: Key, right: NodeId) {
    && Ok(t, Split(left, right), {left})
    && left in t.nodes && left in t.spans && t.spans[left].hi == At(separator)
    && MinKeys(t.maxKeys, t.nodes[left].leaf) <= |t.nodes[left].keys| <= t.maxKeys
  }

  lemma NewRootOk(t: Tree, left: NodeId, separator: Key, right: NodeId, id: NodeId, t1: Tree)
    requires SplitReady(t, left, separator, right) && IsNewRoot(t, left, separator, right, id, t1)
    ensures Ok(t1, Whole, {})
  {
    hide Less, Sorted, InRange;
    assert t1.nodes.Keys == t1.spans.Keys;
    assert LinksOk(t, Split(left, right), left) && LinksOk(t, Split(left, right), right);
    forall m | m in t1.nodes
      ensures LinksOk(t1, Whole, m) && FillOk(t1, m)
    {
      NewRootNode(t, left, separator, right, id, t1, m);
    }
    hide LinksOk, FillOk;
  }

  lemma NewRootNode(t: Tree, left: NodeId, separator: Key, right: NodeId, id: NodeId, t1: Tree, m: NodeId)
    requires SplitReady(t, left, separator, right) && IsNewRoot(t, left, separator, right, id, t1)
    requires m in t1.nodes
    ensures m in t1.spans && t1.root in t1.spans && LinksOk(t1, Whole, m) && FillOk(t1, m)
  {
    hide Less;
    if m == id {
      assert LinksOk(t, Split(left, right), left) && LinksOk(t, Split(left, right), right);
      NewRootKey(separator);
    } else {
      hide Sorted, InRange;
      assert LinksOk(t, Split(left, right), m);
      assert m != left ==> FillOk(t, m);
      forall i | 0 <= i < |t1.nodes[m].children|
        ensures ChildOk(t1, Whole, m, i)
      {
        assert ChildOk(t, Split(left, right), m, i);
      }
    }
  }

  lemma NewRootKey(separator: Key)
    ensures Sorted([separator]) && InRange([separator], Low, High, true)
  {
  }

  ghost predicate IsParentInsert(t: Tree, left: NodeId, separator: Key, right: NodeId, p: NodeId, index: nat,
                                 t1: Tree) {
    && left in t.nodes && right in t.nodes && left != t.root && p in t.nodes && t.nodes[left].parent == Some(p)
    && index < |t.nodes[p].children| == |t.nodes[p].keys| + 1 && t.nodes[p].children[index] == left
    && p != right
    && t1 == t.(nodes := t.nodes[p := t.nodes[p].(keys := InsertAt(t.nodes[p].keys, index, separator),
                                                 children := InsertAt(t.nodes[p].children, index + 1, right))]
                                [right := t.nodes[right].(parent := Some(p))])
  }

  lemma ParentInsertOther(t: Tree, left: NodeId, separator: Key, right: NodeId, p: NodeId, index: nat, t1: Tree,
                          m: NodeId)
    requires SplitReady(t, left, separator, right) && IsParentInsert(t, left, separator, right, p, index, t1)
    requires m in t.nodes && m != p
    ensures LinksOk(t1, Whole, m) && FillOk(t1, m)
  {
    hide Less, Sorted, InRange;
    assert LinksOk(t, Split(left, right), m);
    assert LinksOk(t, Split(left, right), left);
    assert m != left ==> FillOk(t, m);
    forall i | 0 <= i < |t1.nodes[m].children|
      ensures ChildOk(t1, Whole, m, i)
    {
      assert ChildOk(t, Split(left, right), m, i);
    }
    if m == right {
      assert t1.nodes[p].children[index + 1] == right;
      assert ChildOk(t, Split(left, right), p, index) by {
        assert LinksOk(t, Split(left, right), p);
      }
    } else if m != t.root && t.nodes[m].parent == Some(p) {
      InsertKeeps(t.nodes[p].children, index + 1, right, m);
    }
  }

  lemma InsertKeeps<T>(s: seq<T>, i: nat, x: T, y: T)
    requires i <= |s| && y in s
    ensures y in InsertAt(s, i, x)
  {
    assert s == s[..i] + s[i..];
  }

  lemma InsertInRange(keys: seq<Key>, lo: Bound, hi: Bound, i: nat, key: Key)
    requires InRange(keys, lo, hi, true) && i <= |keys|
    requires Less(if i == 0 then lo else At(keys[i - 1]), At(key))
    requires Less(At(key), if i == |keys| then hi else At(keys[i]))
    ensures InRange(InsertAt(keys, i, key), lo, hi, true)
  {
    hide Less;
    if i > 0 {
      LessTrans(lo, At(keys[i - 1]), At(key));
    }
    if i < |keys| {
      LessTrans(At(key), At(keys[i]), hi);
    }
  }

  lemma ParentInsertChild(t: Tree, left: NodeId, separator: Key, right: NodeId, p: NodeId, index: nat, t1: Tree, i: nat)
    requires SplitReady(t, left, separator, right) && IsParentInsert(t, left, separator, right, p, index, t1)
    requires i < |t1.nodes[p].children| && p in t.spans && t.spans[p].ht > 0
    ensures ChildOk(t1, Whole, p, i)
  {
    hide Less, Sorted, InRange;
    var split := Split(left, right);
    var j := if i <= index then i else i - 1;
    assert LinksOk(t, split, p) && ChildOk(t, split, p, index) && ChildOk(t, split, p, j);
    assert t1.nodes[p].children[i] == if i == index + 1 then right else t.nodes[p].children[j];
    if j != index {
      OddMore(t, split, {left});
      ChildrenDistinct(t, split, p, index, j);
    }
  }

  lemma ParentInsertParent(t: Tree, left: NodeId, separator: Key, right: NodeId, p: NodeId, index: nat, t1: Tree)
    requires SplitReady(t, left, separator, right) && IsParentInsert(t, left, separator, right, p, index, t1)
    ensures LinksOk(t1, Whole, p)
  {
    hide Less, Sorted, InRange;
    var split := Split(left, right);
    assert LinksOk(t, split, p) && ChildOk(t, split, p, index);
    var n, s := t.nodes[p], t.spans[p];
    InsertSorted(n.keys, index, separator);
    InsertInRange(n.keys, s.lo, s.hi, index, separator);
    forall i | 0 <= i < |t1.nodes[p].children|
      ensures ChildOk(t1, Whole, p, i)
    {
      ParentInsertChild(t, left, separator, right, p, index, t1, i);
    }
    if p != t.root {
      ParentInsertUp(t, left, separator, right, p, index, t1);
    }
  }

  lemma ParentInsertUp(t: Tree, left: NodeId, separator: Key, right: NodeId, p: NodeId, index: nat, t1: Tree)
    requires SplitReady(t, left, separator, right) && IsParentInsert(t, left, separator, right, p, index, t1)
    requires p in t1.spans && t1.root in t1.spans && p != t.root
    ensures UpOk(t1, Whole, p)
  {
    hide Less, Sorted, InRange;
    assert LinksOk(t, Split(left, right), p);
    if t.nodes[p].parent == Some(p) {
      InsertKeeps(t.nodes[p].children, index + 1, right, p);
    }
  }

  lemma ParentInsertOk(t: Tree, left: NodeId, separator: Key, right: NodeId, p: NodeId, index: nat, t1: Tree)
    requires SplitReady(t, left, separator, right) && IsParentInsert(t, left, separator, right, p, index, t1)
    ensures Ok(t1, Whole, {p})
  {
    assert t1.nodes.Keys == t1.spans.Keys;
    ParentInsertParent(t, left, separator, right, p, index, t1);
    forall m | m in t1.nodes && m != p
      ensures LinksOk(t1, Whole, m) && FillOk(t1, m)
    {
      ParentInsertOther(t, left, separator, right, p, index, t1, m);
    }
    hide LinksOk, FillOk;
  }

  // ---------------------------------------------------------------------
  // Splitting an internal node
  // ---------------------------------------------------------------------

  /** The nodes after the parent pointer of every node in `moved` has been set to `p`. */
  function Reparent(nodes: map<NodeId, BNode>, moved: seq<NodeId>, p: NodeId): map<NodeId, BNode> {
    map n | n in nodes :: if n in moved then nodes[n].(parent := Some(p)) else nodes[n]
  }

  ghost predicate IsInternalSplit(t: Tree, node: NodeId, right: NodeId, t1: Tree)
  {
    && node in t.nodes && node in t.spans && !t.nodes[node].leaf && right !in t.nodes
    && |t.nodes[node].keys| == t.maxKeys + 1 && |t.nodes[node].children| == t.maxKeys + 2 && t.maxKeys >= 3
    && var n, mid := t.nodes[node], |t.nodes[node].keys| / 2;
       t1 == t.(nodes := Reparent(t.nodes[node := n.(keys := n.keys[..mid], children := n.children[..mid + 1])]
                                         [right := BNode(false, n.keys[mid + 1..], [], n.children[mid + 1..], None,
                                                         n.parent)],
                                  n.children[mid + 1..], right),
                spans := SplitSpans(t, node, right, n.keys[mid]))
  }

  lemma SplitInternalOk(t: Tree, node: NodeId, right: NodeId, t1: Tree)
    requires Ok(t, Whole, {node}) && IsInternalSplit(t, node, right, t1)
    ensures Ok(t1, Split(node, right), {node})
    ensures MinKeys(t.maxKeys, false) <= |t1.nodes[node].keys| <= t.maxKeys
  {
    assert t1.nodes.Keys == t1.spans.Keys;
    SplitInternalHalves(t, node, right, t1);
    forall m | m in t1.nodes && m != node && m != right
      ensures LinksOk(t1, Split(node, right), m) && FillOk(t1, m)
    {
      SplitInternalOther(t, node, right, t1, m);
    }
    hide LinksOk, FillOk, SplitOk;
  }

  lemma ChildFacts(t: Tree, split: Split, p: NodeId)
    requires Ok(t, split, t.nodes.Keys) && p in t.nodes
    ensures forall c :: c in t.nodes[p].children ==>
              c in t.nodes && t.nodes[c].parent == Some(p) && t.spans[c].ht + 1 == t.spans[p].ht
  {
    hide Less, Sorted, InRange;
    assert LinksOk(t, split, p);
    forall c | c in t.nodes[p].children
      ensures c in t.nodes && t.nodes[c].parent == Some(p) && t.spans[c].ht + 1 == t.spans[p].ht
    {
      var i :| 0 <= i < |t.nodes[p].children| && t.nodes[p].children[i] == c;
      assert ChildOk(t, split, p, i);
    }
  }

  /** Nothing but the parent pointer may differ. */
  predicate SameButParent(a: BNode, b: BNode) {
    && a.leaf == b.leaf && a.keys == b.keys && a.values == b.values
    && a.children == b.children && a.next == b.next
  }

  /** The children of a node are the nodes whose parent pointer names it. */
  lemma ParentOfChild(t: Tree, p: NodeId, m: NodeId)
    requires Ok(t, Whole, t.nodes.Keys) && p in t.nodes && m in t.nodes
    ensures m in t.nodes[p].children <==> t.nodes[m].parent == Some(p)
    ensures m in t.nodes[p].children ==> m != p && m != t.root
  {
    hide Less, Sorted, InRange;
    ChildFacts(t, Whole, p);
    assert LinksOk(t, Whole, m);
  }

  /** How moving some children of `node` to a new sibling `right` affects a node `m`. */
  ghost predicate MovedAt(t: Tree, node: NodeId, right: NodeId, t1: Tree, m: NodeId)
    requires m in t.nodes && node in t1.nodes && right in t1.nodes
  {
    && m in t1.nodes && m in t.spans && m in t1.spans && t1.spans[m] == t.spans[m]
    && SameButParent(t1.nodes[m], t.nodes[m])
    && (if t.nodes[m].parent == Some(node)
        then (t1.nodes[m].parent == Some(node) && m in t1.nodes[node].children)
             || (t1.nodes[m].parent == Some(right) && m in t1.nodes[right].children)
        else t1.nodes[m].parent == t.nodes[m].parent)
  }

  lemma SplitInternalAt(t: Tree, node: NodeId, right: NodeId, t1: Tree, m: NodeId)
    requires Ok(t, Whole, {node}) && IsInternalSplit(t, node, right, t1) && m in t.nodes && m != node
    ensures MovedAt(t, node, right, t1, m)
  {
    OddMore(t, Whole, {node});
    ParentOfChild(t, node, m);
    ParentOfChild(t, node, node);
    ArenaOk(t, {node});
    hide Less, Ok, LinksOk, FillOk;
    var n, mid := t.nodes[node], |t.nodes[node].keys| / 2;
    var kept, moved := n.children[..mid + 1], n.children[mid + 1..];
    assert n.children == kept + moved;
    SplitInternalNode(t, node, right, t1);
    assert t1.nodes[m] == if m in moved then t.nodes[m].(parent := Some(right)) else t.nodes[m];
  }

  lemma SplitInternalNode(t: Tree, node: NodeId, right: NodeId, t1: Tree)
    requires Ok(t, Whole, {node}) && IsInternalSplit(t, node, right, t1)
    ensures var n, mid := t.nodes[node], |t.nodes[node].keys| / 2;
            && node in t1.nodes && t1.nodes[node] == n.(keys := n.keys[..mid], children := n.children[..mid + 1])
            && right in t1.nodes
            && t1.nodes[right] == BNode(false, n.keys[mid + 1..], [], n.children[mid + 1..], None, n.parent)
  {
    OddMore(t, Whole, {node});
    ParentOfChild(t, node, node);
    ChildFacts(t, Whole, node);
    hide Less, LinksOk, FillOk;
  }

  /** With an even `maxKeys`, internal nodes hold as many keys as leaves must. */
  lemma HalfFull(t: Tree, n: NodeId)
    requires Ok(t, Whole, {}) && t.maxKeys % 2 == 0 && n in t.nodes && n != t.root
    ensures |t.nodes[n].keys| >= LeafMin(t.maxKeys)
  {
    assert FillOk(t, n);
  }

  /** With an odd one they need not: the right half of every internal split has a key less. */
  lemma SplitHalfFull(t: Tree, node: NodeId, right: NodeId, t1: Tree)
    requires Ok(t, Whole, {node}) && IsInternalSplit(t, node, right, t1)
    ensures right in t1.nodes && (|t1.nodes[right].keys| >= LeafMin(t.maxKeys) <==> t.maxKeys % 2 == 0)
  {
    SplitInternalNode(t, node, right, t1);
  }

  lemma SplitInternalOther(t: Tree, node: NodeId, right: NodeId, t1: Tree, m: NodeId)
    requires Ok(t, Whole, {node}) && IsInternalSplit(t, node, right, t1)
    requires m in t.nodes && m != node
    ensures m in t1.nodes && m in t1.spans && LinksOk(t1, Split(node, right), m) && FillOk(t1, m)
  {
    SplitInternalAt(t, node, right, t1, m);
    SplitInternalNode(t, node, right, t1);
    assert LinksOk(t, Whole, m) && LinksOk(t, Whole, node) && FillOk(t, m);
    hide Less, Sorted, InRange, Reparent, Ok;
    forall i | 0 <= i < |t1.nodes[m].children|
      ensures ChildOk(t1, Split(node, right), m, i)
    {
      assert ChildOk(t, Whole, m, i);
      if t.nodes[m].children[i] != node {
        SplitInternalAt(t, node, right, t1, t.nodes[m].children[i]);
      }
    }
    if t.nodes[m].next.Some? {
      SplitInternalAt(t, node, right, t1, t.nodes[m].next.value);
    }
  }

  lemma SplitInternalChild(t: Tree, node: NodeId, right: NodeId, t1: Tree, i: nat)
    requires Ok(t, Whole, {node}) && IsInternalSplit(t, node, right, t1) && i < |t.nodes[node].children|
    ensures var c := t.nodes[node].children[i];
            && c in t1.nodes && c in t1.spans && c != node && c != right && t1.spans[c] == t.spans[c]
            && t1.nodes[c].parent == Some(if i <= |t.nodes[node].keys| / 2 then node else right)
  {
    var n, mid := t.nodes[node], |t.nodes[node].keys| / 2;
    var c := n.children[i];
    OddMore(t, Whole, {node});
    ChildFacts(t, Whole, node);
    assert c in n.children;
    forall j | mid + 1 <= j < |n.children| && i <= mid
      ensures n.children[j] != c
    {
      ChildrenDistinct(t, Whole, node, i, j);
    }
    hide Less, LinksOk, FillOk;
    assert i > mid ==> n.children[mid + 1..][i - mid - 1] == c;
  }

  lemma SplitInternalHalves(t: Tree, node: NodeId, right: NodeId, t1: Tree)
    requires Ok(t, Whole, {node}) && IsInternalSplit(t, node, right, t1)
    ensures t1.nodes.Keys == t1.spans.Keys && SplitOk(t1, Split(node, right))
    ensures LinksOk(t1, Split(node, right), node) && LinksOk(t1, Split(node, right), right)
    ensures FillOk(t1, right) && MinKeys(t.maxKeys, false) <= |t1.nodes[node].keys| <= t.maxKeys
  {
    hide Less;
    assert LinksOk(t, Whole, node);
    SplitInternalNode(t, node, right, t1);
    var n, mid := t.nodes[node], |t.nodes[node].keys| / 2;
    SplitKeys(n.keys, mid, t.spans[node].lo, t.spans[node].hi);
    SplitInternalUp(t, node, right, t1);
    hide Sorted, InRange, Reparent, UpOk;
    forall i | 0 <= i < |t1.nodes[node].children|
      ensures ChildOk(t1, Split(node, right), node, i)
    {
      SplitInternalChildLeft(t, node, right, t1, i);
    }
    forall i | 0 <= i < |t1.nodes[right].children|
      ensures ChildOk(t1, Split(node, right), right, i)
    {
      SplitInternalChildRight(t, node, right, t1, i);
    }
  }

  lemma SplitInternalChildLeft(t: Tree, node: NodeId, right: NodeId, t1: Tree, i: nat)
    requires Ok(t, Whole, {node}) && IsInternalSplit(t, node, right, t1) && i <= |t.nodes[node].keys| / 2
    ensures node in t1.nodes && node in t1.spans && t1.spans[node].ht > 0
    ensures i < |t1.nodes[node].children| <= |t1.nodes[node].keys| + 1
    ensures ChildOk(t1, Split(node, right), node, i)
  {
    hide Less, Sorted, InRange, Reparent;
    assert LinksOk(t, Whole, node) && ChildOk(t, Whole, node, i);
    SplitInternalNode(t, node, right, t1);
    SplitInternalChild(t, node, right, t1, i);
  }

  lemma SplitInternalChildRight(t: Tree, node: NodeId, right: NodeId, t1: Tree, i: nat)
    requires Ok(t, Whole, {node}) && IsInternalSplit(t, node, right, t1)
    requires i + |t.nodes[node].keys| / 2 + 1 < |t.nodes[node].children|
    ensures right in t1.nodes && right in t1.spans && t1.spans[right].ht > 0
    ensures i < |t1.nodes[right].children| <= |t1.nodes[right].keys| + 1
    ensures ChildOk(t1, Split(node, right), right, i)
  {
    hide Less, Sorted, InRange, Reparent;
    var mid := |t.nodes[node].keys| / 2;
    assert LinksOk(t, Whole, node) && ChildOk(t, Whole, node, mid + 1 + i);
    SplitInternalNode(t, node, right, t1);
    SplitInternalChild(t, node, right, t1, mid + 1 + i);
  }

  lemma SplitInternalUp(t: Tree, node: NodeId, right: NodeId, t1: Tree)
    requires Ok(t, Whole, {node}) && IsInternalSplit(t, node, right, t1)
    ensures t1.nodes.Keys == t1.spans.Keys
    ensures UpOk(t1, Split(node, right), node) && UpOk(t1, Split(node, right), right)
  {
    SplitInternalNode(t, node, right, t1);
    assert LinksOk(t, Whole, node);
    if node != t.root {
      var p := t.nodes[node].parent.value;
      OddMore(t, Whole, {node});
      ParentOfChild(t, p, node);
      SplitInternalAt(t, node, right, t1, p);
    }
    hide Less, Sorted, InRange, Reparent;
  }

  /** Taking the middle key out of a node leaves two sorted runs on either side of it. */
  lemma SplitKeys(keys: seq<Key>, mid: nat, lo: Bound, hi: Bound)
    requires Sorted(keys) && InRange(keys, lo, hi, true) && mid < |keys|
    ensures Sorted(keys[..mid]) && InRange(keys[..mid], lo, At(keys[mid]), true)
    ensures Sorted(keys[mid + 1..]) && InRange(keys[mid + 1..], At(keys[mid]), hi, true)
    ensures Less(lo, At(keys[mid])) && Less(At(keys[mid]), hi)
  {
    hide Less;
  }
}
