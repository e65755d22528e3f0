/** Reading keys in order off the chain of leaves. */
module TreeScan {
  import opened Collections
  import opened Keys
  import opened TreeShape
  import opened TreeMerge
  import opened TreeEntries

  ghost predicate Ascends(result: seq<Entry>) {
    forall i, j :: 0 <= i < j < |result| ==> Less(At(result[i].0), At(result[j].0))
  }

  /** `result` lists, in ascending order, exactly the postings from `lo` up to `hi`, exclusive. */
  ghost predicate Lists(contents: map<Key, set<DocId>>, result: seq<Entry>, lo: Bound, hi: Bound) {
    && Ascends(result)
    && (forall e :: e in result <==> e in contents.Items && AtMost(lo, At(e.0)) && Less(At(e.0), hi))
  }

  /** Where the keys of a leaf from position `i` on begin. */
  function Edge(t: Tree, leaf: NodeId, i: nat): Bound
    requires leaf in t.nodes && leaf in t.spans && i <= |t.nodes[leaf].keys|
  {
    if i < |t.nodes[leaf].keys| then At(t.nodes[leaf].keys[i]) else t.spans[leaf].hi
  }

  lemma StoredEntry(t: Tree, leaf: NodeId, e: Entry, contents: map<Key, set<DocId>>)
    requires Ok(t, Whole, {}) && leaf in t.nodes && t.nodes[leaf].leaf && Covers(t.spans[leaf], e.0)
    requires Entries(t.nodes) == contents.Items
    ensures |t.nodes[leaf].keys| == |t.nodes[leaf].values|
    ensures e in contents.Items <==>
            exists i :: 0 <= i < |t.nodes[leaf].keys| && e == (t.nodes[leaf].keys[i], t.nodes[leaf].values[i])
  {
    KeyOnlyThere(t, {}, leaf, e.0, e);
    assert LinksOk(t, Whole, leaf);
  }

  /** No key lies between the lower bound of a leaf and its first key. */
  lemma EnterLeaf(t: Tree, leaf: NodeId, contents: map<Key, set<DocId>>, result: seq<Entry>, from: Bound)
    requires Ok(t, Whole, {}) && leaf in t.nodes && t.nodes[leaf].leaf && Entries(t.nodes) == contents.Items
    requires Lists(contents, result, from, t.spans[leaf].lo)
    ensures Lists(contents, result, from, Edge(t, leaf, 0))
  {
    assert LinksOk(t, Whole, leaf);
    var edge, s := Edge(t, leaf, 0), t.spans[leaf];
    SpanNonEmpty(t, {}, leaf);
    hide Less, Ok, LinksOk;
    forall e: Entry
      ensures e in result <==> e in contents.Items && AtMost(from, At(e.0)) && Less(At(e.0), edge)
    {
      LessTotal(s.lo, At(e.0));
      if AtMost(s.lo, At(e.0)) {
        if e in contents.Items && Less(At(e.0), edge) {
          BeforeFirst(t, leaf, e, contents);
        }
      } else {
        LessTrans(At(e.0), s.lo, edge);
      }
    }
  }

  lemma BeforeFirst(t: Tree, leaf: NodeId, e: Entry, contents: map<Key, set<DocId>>)
    requires Ok(t, Whole, {}) && leaf in t.nodes && t.nodes[leaf].leaf && Entries(t.nodes) == contents.Items
    requires AtMost(t.spans[leaf].lo, At(e.0)) && Less(At(e.0), Edge(t, leaf, 0))
    ensures e !in contents.Items
  {
    assert LinksOk(t, Whole, leaf);
    hide Less, Ok;
    var keys, s := t.nodes[leaf].keys, t.spans[leaf];
    if keys != [] {
      LessTrans(At(e.0), At(keys[0]), s.hi);
    }
    StoredEntry(t, leaf, e, contents);
    forall j | 0 <= j < |keys|
      ensures keys[j] != e.0
    {
      assert AtMost(At(keys[0]), At(keys[j]));
      LessTotal(At(keys[0]), At(e.0));
    }
  }

  lemma BetweenKeys(keys: seq<Key>, i: nat, j: nat)
    requires Sorted(keys) && i < |keys| && j < |keys|
    requires AtMost(At(keys[i]), At(keys[j]))
    requires i + 1 < |keys| ==> Less(At(keys[j]), At(keys[i + 1]))
    ensures j == i
  {
    hide Less;
    LessTotal(At(keys[i]), At(keys[j]));
    if j > i {
      assert AtMost(At(keys[i + 1]), At(keys[j]));
      LessTotal(At(keys[i + 1]), At(keys[j]));
    }
  }

  /** From one key of a leaf up to the next there is just the posting of the first. */
  lemma OnlyKey(t: Tree, leaf: NodeId, i: nat, contents: map<Key, set<DocId>>, e: Entry)
    requires Ok(t, Whole, {}) && leaf in t.nodes && t.nodes[leaf].leaf && Entries(t.nodes) == contents.Items
    requires i < |t.nodes[leaf].keys| == |t.nodes[leaf].values|
    requires AtMost(At(t.nodes[leaf].keys[i]), At(e.0)) && Less(At(e.0), Edge(t, leaf, i + 1))
    ensures e in contents.Items <==> e == (t.nodes[leaf].keys[i], t.nodes[leaf].values[i])
  {
    assert LinksOk(t, Whole, leaf);
    hide Less, Ok;
    var keys, s := t.nodes[leaf].keys, t.spans[leaf];
    LessTrans(s.lo, At(keys[i]), At(e.0));
    if i + 1 < |keys| {
      LessTrans(At(e.0), At(keys[i + 1]), s.hi);
    }
    StoredEntry(t, leaf, e, contents);
    if e in contents.Items {
      var j :| 0 <= j < |keys| && e == (keys[j], t.nodes[leaf].values[j]);
      BetweenKeys(keys, i, j);
    }
  }

  /** Between a key of a leaf and the next one there is only that key. */
  lemma PassKey(t: Tree, leaf: NodeId, i: nat, contents: map<Key, set<DocId>>, result: seq<Entry>, from: Bound)
    requires Ok(t, Whole, {}) && leaf in t.nodes && t.nodes[leaf].leaf && Entries(t.nodes) == contents.Items
    requires i < |t.nodes[leaf].keys| == |t.nodes[leaf].values|
    requires Lists(contents, result, from, Edge(t, leaf, i))
    ensures var e := (t.nodes[leaf].keys[i], t.nodes[leaf].values[i]);
            Lists(contents, if Less(At(e.0), from) then result else result + [e], from, Edge(t, leaf, i + 1))
  {
    assert LinksOk(t, Whole, leaf);
    var key := t.nodes[leaf].keys[i];
    var here := (key, t.nodes[leaf].values[i]);
    var edge := Edge(t, leaf, i + 1);
    var more := if Less(At(key), from) then result else result + [here];
    hide Less, Ok, LinksOk;
    assert Less(At(key), edge);
    LessTotal(from, At(key));
    forall e: Entry
      ensures e in more <==> e in contents.Items && AtMost(from, At(e.0)) && Less(At(e.0), edge)
    {
      LessTotal(At(key), At(e.0));
      if Less(At(e.0), At(key)) {
        LessTrans(At(e.0), At(key), edge);
      } else if Less(At(e.0), edge) {
        OnlyKey(t, leaf, i, contents, e);
      }
      LessTotal(At(key), At(key));
    }
  }

  /** The leaves whose range starts at or after that of `leaf`. */
  ghost function Ahead(t: Tree, leaf: NodeId): set<NodeId>
    requires leaf in t.spans && t.nodes.Keys == t.spans.Keys
  {
    set n | n in t.nodes && AtMost(t.spans[leaf].lo, t.spans[n].lo)
  }

  lemma NextIsAhead(t: Tree, leaf: NodeId, next: NodeId)
    requires Ok(t, Whole, {}) && leaf in t.nodes && t.nodes[leaf].leaf && t.nodes[leaf].next == Some(next)
    ensures next in t.nodes && next in t.spans && t.nodes[next].leaf && t.spans[next].lo == t.spans[leaf].hi
    ensures Ahead(t, next) < Ahead(t, leaf)
  {
    assert LinksOk(t, Whole, leaf);
    SpanNonEmpty(t, {}, leaf);
    hide Less, Ok, LinksOk;
    var s, r := t.spans[leaf], t.spans[next];
    forall n | n in Ahead(t, next)
      ensures n in Ahead(t, leaf)
    {
      LessTrans(s.lo, r.lo, t.spans[n].lo);
    }
    LessTotal(r.lo, s.lo);
    assert leaf in Ahead(t, leaf) && leaf !in Ahead(t, next);
  }

  lemma LastLeaf(t: Tree, leaf: NodeId)
    requires Ok(t, Whole, {}) && leaf in t.nodes && t.nodes[leaf].leaf && t.nodes[leaf].next == None
    ensures t.spans[leaf].hi == High
  {
    assert LinksOk(t, Whole, leaf);
  }
}
