/** The walk of `validate` over a tree, and why it finds nothing to report. */
module TreeValidation {
  import opened Collections
  import opened Keys
  import opened TreeShape

  datatype Problem =
    | KeysOutOfOrder(depth: nat)
    | BelowBound(key: Key)
    | AboveBound(key: Key)
    | Underfull(depth: nat)
    | Overfull(depth: nat)
    | WrongChildCount(depth: nat)
    | BrokenParent(depth: nat)
    | DifferingDepths(depths: set<nat>)

  /** What a walk has reported so far, and the depths at which it has met leaves. */
  datatype Report = Report(errors: set<Problem>, depths: set<nat>) {
    function Plus(other: Report): Report { Report(errors + other.errors, depths + other.depths) }
  }

  predicate Unordered(keys: seq<Key>, i: nat) {
    1 <= i < |keys| && !Less(At(keys[i - 1]), At(keys[i]))
  }

  function KeyProblems(t: Tree, n: NodeId, depth: nat, lower: Bound, upper: Bound): set<Problem>
    requires n in t.nodes
  {
    var keys := t.nodes[n].keys;
    (if exists i: nat :: i < |keys| && Unordered(keys, i) then {KeysOutOfOrder(depth)} else {})
    + (set i | 0 <= i < |keys| && Less(At(keys[i]), lower) :: BelowBound(keys[i]))
    + (set i | 0 <= i < |keys| && !Less(At(keys[i]), upper) :: AboveBound(keys[i]))
  }

  function FillProblems(t: Tree, n: NodeId, depth: nat): set<Problem>
    requires n in t.nodes
  {
    (if n != t.root && |t.nodes[n].keys| < MinKeys(t.maxKeys, t.nodes[n].leaf) then {Underfull(depth)} else {})
    + (if |t.nodes[n].keys| > t.maxKeys then {Overfull(depth)} else {})
  }

  /** The bounds handed down to child `i`; beyond the last separator there is none. */
  function LowerFor(keys: seq<Key>, i: nat, lower: Bound): Bound {
    if i == 0 then lower else if i - 1 < |keys| then At(keys[i - 1]) else Low
  }

  function UpperFor(keys: seq<Key>, i: nat, upper: Bound): Bound {
    if i == |keys| then upper else if i < |keys| then At(keys[i]) else High
  }

  ghost function Walk(t: Tree, n: NodeId, depth: nat, lower: Bound, upper: Bound): Report
    requires Grounded(t) && n in t.nodes
    decreases t.spans[n].ht, 0
  {
    var own := KeyProblems(t, n, depth, lower, upper) + FillProblems(t, n, depth);
    if t.nodes[n].leaf then Report(own, {depth})
    else
      var count := if |t.nodes[n].children| != |t.nodes[n].keys| + 1 then {WrongChildCount(depth)} else {};
      Report(own + count, {}).Plus(WalkChildren(t, n, 0, depth, lower, upper))
  }

  /** The walk over the children from `i` on. */
  ghost function WalkChildren(t: Tree, n: NodeId, i: nat, depth: nat, lower: Bound, upper: Bound): Report
    requires Grounded(t) && n in t.nodes && i <= |t.nodes[n].children|
    decreases t.spans[n].ht, 0, |t.nodes[n].children| - i
  {
    if i == |t.nodes[n].children| then Report({}, {})
    else
      var keys, c := t.nodes[n].keys, t.nodes[n].children[i];
      assert c in t.nodes[n].children;
      var broken := if t.nodes[c].parent != Some(n) then {BrokenParent(depth)} else {};
      Report(broken, {})
        .Plus(Walk(t, c, depth + 1, LowerFor(keys, i, lower), UpperFor(keys, i, upper)))
        .Plus(WalkChildren(t, n, i + 1, depth, lower, upper))
  }

  ghost function Validate(t: Tree): set<Problem>
    requires Grounded(t)
  {
    var report := Walk(t, t.root, 0, Low, High);
    report.errors + if |report.depths| > 1 then {DifferingDepths(report.depths)} else {}
  }

  lemma NodeFindsNothing(t: Tree, n: NodeId, depth: nat)
    requires Ok(t, Whole, {}) && n in t.nodes
    ensures KeyProblems(t, n, depth, t.spans[n].lo, t.spans[n].hi) == {} == FillProblems(t, n, depth)
    ensures t.nodes[n].leaf == (t.spans[n].ht == 0)
    ensures !t.nodes[n].leaf ==> |t.nodes[n].children| == |t.nodes[n].keys| + 1
  {
    assert LinksOk(t, Whole, n) && FillOk(t, n);
    hide Less;
    var keys, s := t.nodes[n].keys, t.spans[n];
    forall i | 0 <= i < |keys|
      ensures !Less(At(keys[i]), s.lo) && Less(At(keys[i]), s.hi)
    {
      LessTotal(s.lo, At(keys[i]));
    }
  }

  /** The bounds handed down to a child are those of its range. */
  lemma HandedDown(t: Tree, n: NodeId, i: nat)
    requires Ok(t, Whole, {}) && n in t.nodes && !t.nodes[n].leaf && i < |t.nodes[n].children|
    ensures var c := t.nodes[n].children[i];
            && c in t.nodes && t.spans[c].ht + 1 == t.spans[n].ht && t.nodes[c].parent == Some(n)
            && t.spans[c].lo == LowerFor(t.nodes[n].keys, i, t.spans[n].lo)
            && t.spans[c].hi == UpperFor(t.nodes[n].keys, i, t.spans[n].hi)
  {
    assert LinksOk(t, Whole, n) && ChildOk(t, Whole, n, i);
  }

  lemma {:induction false} WalkFindsNothing(t: Tree, n: NodeId, depth: nat)
    requires Ok(t, Whole, {}) && Grounded(t) && n in t.nodes
    ensures Walk(t, n, depth, t.spans[n].lo, t.spans[n].hi) == Report({}, {depth + t.spans[n].ht})
    decreases t.spans[n].ht, 0
  {
    NodeFindsNothing(t, n, depth);
    if !t.nodes[n].leaf {
      WalkChildrenFindsNothing(t, n, 0, depth);
    }
  }

  lemma ChildStep(t: Tree, n: NodeId, i: nat, depth: nat, lower: Bound, upper: Bound)
    requires Grounded(t) && n in t.nodes && i < |t.nodes[n].children|
    requires var c := t.nodes[n].children[i]; c in t.nodes && t.nodes[c].parent == Some(n)
    ensures WalkChildren(t, n, i, depth, lower, upper) ==
            Walk(t, t.nodes[n].children[i], depth + 1,
                 LowerFor(t.nodes[n].keys, i, lower), UpperFor(t.nodes[n].keys, i, upper))
              .Plus(WalkChildren(t, n, i + 1, depth, lower, upper))
  {
    hide Walk, LowerFor, UpperFor;
  }

  lemma NoMoreChildren(t: Tree, n: NodeId, depth: nat, lower: Bound, upper: Bound)
    requires Grounded(t) && n in t.nodes
    ensures WalkChildren(t, n, |t.nodes[n].children|, depth, lower, upper) == Report({}, {})
  {
  }

  lemma {:induction false} WalkChildrenFindsNothing(t: Tree, n: NodeId, i: nat, depth: nat)
    requires Ok(t, Whole, {}) && Grounded(t) && n in t.nodes && !t.nodes[n].leaf && i <= |t.nodes[n].children|
    ensures WalkChildren(t, n, i, depth, t.spans[n].lo, t.spans[n].hi) ==
            Report({}, if i < |t.nodes[n].children| then {depth + t.spans[n].ht} else {})
    decreases t.spans[n].ht, 0, |t.nodes[n].children| - i
  {
    hide Ok, Less, Walk, WalkChildren, Grounded, LowerFor, UpperFor;
    ArenaOk(t, {});
    if i == |t.nodes[n].children| {
      NoMoreChildren(t, n, depth, t.spans[n].lo, t.spans[n].hi);
    } else {
      HandedDown(t, n, i);
      ChildStep(t, n, i, depth, t.spans[n].lo, t.spans[n].hi);
      WalkFindsNothing(t, t.nodes[n].children[i], depth + 1);
      WalkChildrenFindsNothing(t, n, i + 1, depth);
    }
  }

  /** `validate` reports nothing for a tree that satisfies the invariant: the leaves are all at one depth, too. */
  lemma ValidateFindsNothing(t: Tree)
    requires Ok(t, Whole, {}) && Grounded(t)
    ensures Validate(t) == {}
    ensures Walk(t, t.root, 0, Low, High).depths == {t.spans[t.root].ht}
  {
    assert LinksOk(t, Whole, t.root);
    WalkFindsNothing(t, t.root, 0);
  }
}
