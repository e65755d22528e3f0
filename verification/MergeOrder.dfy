/** For operations anywhere, inside the text or beyond its end: exactly when a merge depends on the order. */
module MergeOrder {
  import opened Collections
  import opened Conflicts

  /** `c` in place of everything from `s` up to `e`, both clamped to the text. */
  function Cut(text: string, s: nat, e: nat, c: string): string
    requires s <= e
  {
    text[..Min(s, |text|)] + c + text[Min(e, |text|)..]
  }

  lemma ApplyIsCut(text: string, op: Operation)
    ensures ApplyOperation(text, op) == Cut(text, OperationRange(op).start, OperationRange(op).end, Content(op))
  {
    if op.Other? {
      var p := Min(OperationRange(op).start, |text|);
      assert text[..p] + "" + text[p..] == text;
    }
  }

  lemma CutNothing(text: string, p: nat)
    ensures Cut(text, p, p, "") == text
  {
  }

  lemma ShiftedRange(op: Operation, p: nat)
    ensures var r := OperationRange(op);
            OperationRange(Shifted(op, p)) == Range(p, p + (r.end - r.start), r.delta)
    ensures Content(Shifted(op, p)) == Content(op)
  {
  }

  /** Merging, as two cuts. */
  lemma LeftFirstCuts(base: string, l: Operation, r: Operation)
    requires !Overlaps(l, r) && OperationRange(l).end <= OperationRange(r).start
    ensures var rl, rr := OperationRange(l), OperationRange(r);
            && rr.start + rl.delta >= 0
            && Merged(base, l, r) == Some(Cut(Cut(base, rl.start, rl.end, Content(l)),
                                              rr.start + rl.delta, rr.end + rl.delta, Content(r)))
  {
    hide ApplyOperation, Shifted, Overlaps, Cut;
    DeltaIs(l);
    hide Content, OperationRange;
    var rl, rr := OperationRange(l), OperationRange(r);
    ApplyIsCut(base, l);
    ShiftedRange(r, rr.start + rl.delta);
    ApplyIsCut(ApplyOperation(base, l), Shifted(r, rr.start + rl.delta));
  }

  lemma RightFirstCuts(base: string, l: Operation, r: Operation)
    requires !Overlaps(l, r) && OperationRange(l).end <= OperationRange(r).start
    ensures var rl, rr := OperationRange(l), OperationRange(r);
            Merged(base, r, l) == Some(Cut(Cut(base, rr.start, rr.end, Content(r)), rl.start, rl.end, Content(l)))
  {
    hide ApplyOperation, Shifted, Overlaps, Cut, Content, OperationRange;
    OverlapsEitherWay(l, r);
    AtSameSpot(l, r);
    DeltaIs(r);
    var rl, rr := OperationRange(l), OperationRange(r);
    var p := if rl.start >= rr.end then rl.start + rr.delta else rl.start;
    ApplyIsCut(base, r);
    ShiftedRange(l, p);
    ApplyIsCut(ApplyOperation(base, r), Shifted(l, p));
    CutNothing(ApplyOperation(base, r), p);
    CutNothing(ApplyOperation(base, r), rl.start);
  }

  /** Disjoint ranges that touch from both sides are the same empty one, and not both operations insert there. */
  lemma AtSameSpot(l: Operation, r: Operation)
    requires !Overlaps(l, r) && OperationRange(l).end <= OperationRange(r).start
    ensures var rl, rr := OperationRange(l), OperationRange(r);
            rl.start >= rr.end ==>
              rl.start == rl.end == rr.start == rr.end && rr.delta >= 0 && (rr.delta != 0 ==> Content(l) == "")
  {
  }

  // ---------------------------------------------------------------------
  // Two cuts in a string
  // ---------------------------------------------------------------------

  lemma CutClamped(text: string, s: nat, e: nat, c: string)
    requires s <= e
    ensures Cut(text, s, e, c) == Cut(text, Min(s, |text|), Min(e, |text|), c)
  {
  }

  lemma CutLength(text: string, s: nat, e: nat, c: string)
    requires s <= e <= |text|
    ensures |Cut(text, s, e, c)| == |text| + |c| - (e - s)
  {
  }

  lemma Regrouped(a: string, x: string, b: string, y: string, c: string)
    ensures a + x + b + y + c == a + x + (b + y + c)
    ensures a + x + (b + y + c) == (a + x + b) + y + c
  {
  }

  lemma FiveParts(base: string, ls: nat, le: nat, p: nat, q: nat)
    requires ls <= le <= p <= q <= |base|
    ensures base == base[..ls] + base[ls..le] + base[le..p] + base[p..q] + base[q..]
  {
  }

  /** Replacing the second and the fourth of five parts, in either order. */
  lemma TwoReplaced(a: string, x: string, b: string, y: string, c: string, cl: string, cr: string)
    ensures var all := a + x + b + y + c;
            && Cut(Cut(all, |a|, |a| + |x|, cl), |a| + |cl| + |b|, |a| + |cl| + |b| + |y|, cr) == a + cl + b + cr + c
            && Cut(Cut(all, |a| + |x| + |b|, |a| + |x| + |b| + |y|, cr), |a|, |a| + |x|, cl) == a + cl + b + cr + c
  {
    hide Cut;
    Regrouped(a, x, b, y, c);
    Regrouped(a, cl, b, y, c);
    Regrouped(a, x, b, cr, c);
    Regrouped(a, cl, b, cr, c);
    ReplaceMiddle(a, x, b + y + c, cl);
    ReplaceMiddle(a + cl + b, y, c, cr);
    ReplaceMiddle(a + x + b, y, c, cr);
    ReplaceMiddle(a, x, b + cr + c, cl);
  }

  /** As long as the left cut stays within the text, the cuts do not disturb each other. */
  lemma CutsCommute(base: string, ls: nat, le: nat, cl: string, rs: nat, re: nat, cr: string)
    requires ls <= le <= rs <= re && le <= |base|
    ensures var d := |cl| - (le - ls);
            Cut(Cut(base, ls, le, cl), rs + d, re + d, cr) == Cut(Cut(base, rs, re, cr), ls, le, cl)
  {
    hide Cut;
    var d, p, q := |cl| - (le - ls), Min(rs, |base|), Min(re, |base|);
    var a, x, b, y, c := base[..ls], base[ls..le], base[le..p], base[p..q], base[q..];
    FiveParts(base, ls, le, p, q);
    TwoReplaced(a, x, b, y, c, cl, cr);
    CutClamped(base, rs, re, cr);
    var first := Cut(base, ls, le, cl);
    CutLength(base, ls, le, cl);
    CutClamped(first, rs + d, re + d, cr);
  }

  lemma ReplaceMiddle(left: string, mid: string, right: string, c: string)
    ensures Cut(left + mid + right, |left|, |left| + |mid|, c) == left + c + right
  {
    var text := left + mid + right;
    assert text[..|left|] == left && text[|left| + |mid|..] == right;
  }

  /** A left cut that reaches beyond the text leaves nothing for the right one but to append. */
  lemma CutBeyond(base: string, ls: nat, le: nat, cl: string, rs: nat, re: nat, cr: string)
    requires ls <= le <= rs <= re && |base| < le
    ensures var d := |cl| - (le - ls);
            && rs + d >= 0
            && Cut(Cut(base, ls, le, cl), rs + d, re + d, cr) == base[..Min(ls, |base|)] + cl + cr
            && Cut(base, rs, re, cr) == base + cr
  {
    var first := Cut(base, ls, le, cl);
    assert first == base[..Min(ls, |base|)] + cl;
  }

  lemma MiddlesAgree(a: string, x: string, y: string, b: string)
    requires |x| == |y|
    ensures a + x + b == a + y + b <==> x == y
  {
    assert (a + x + b)[|a|..|a| + |x|] == x && (a + y + b)[|a|..|a| + |y|] == y;
  }

  /** Inserting `c` beyond the text, before or after `more` has been appended to it. */
  lemma InsertBeyond(base: string, at: nat, c: string, more: string)
    requires at > |base|
    ensures var front := more[..Min(at - |base|, |more|)];
            base[..Min(at, |base|)] + c + more == Cut(base + more, at, at, c) <==> c + front == front + c
  {
    var k := Min(at - |base|, |more|);
    var front, back := more[..k], more[k..];
    assert more == front + back && base[..Min(at, |base|)] == base;
    ReplaceMiddle(base + front, "", back, c);
    assert (base + front) + "" + back == base + more;
    CutClamped(base + more, at, at, c);
    MiddlesAgree(base, c + front, front + c, back);
    hide Cut;
    assert base + c + more == base + (c + front) + back;
    assert (base + front) + c + back == base + (front + c) + back;
  }

  /** Deleting beyond the text, before or after `more` has been appended to it. */
  lemma DeleteBeyond(base: string, s: nat, e: nat, more: string)
    requires s <= e && |base| < e
    ensures base[..Min(s, |base|)] + "" + more == Cut(base + more, s, e, "") <==>
            !(s < e && Max(s, |base|) < |base| + |more|)
  {
    var all := base + more;
    if s == e {
      CutNothing(all, s);
      assert base[..Min(s, |base|)] == base;
    } else if more == "" {
      assert all == base;
    } else if s >= |all| {
      assert base[..Min(s, |base|)] == base;
    } else {
      assert |Cut(all, s, e, "")| == s + |all| - Min(e, |all|);
    }
  }

  // ---------------------------------------------------------------------
  // Merging in either order
  // ---------------------------------------------------------------------

  /**
    * The left operation reaches beyond the text, and what the right one appends there gets in its way: an insertion
    * would land inside or behind it, a deletion would take some of it away.
    */
  predicate Interfere(base: string, l: Operation, r: Operation) {
    var rl, more := OperationRange(l), Content(r);
    && rl.end > |base|
    && (if l.Insert? then
          var front := more[..Min(rl.start - |base|, |more|)]; Content(l) + front != front + Content(l)
        else
          rl.start < rl.end && Max(rl.start, |base|) < |base| + |more|)
  }

  lemma OrderOfTwo(base: string, l: Operation, r: Operation)
    requires !Overlaps(l, r) && OperationRange(l).end <= OperationRange(r).start
    ensures Merged(base, l, r) == Merged(base, r, l) <==> !Interfere(base, l, r)
  {
    hide Overlaps, Merged, Cut, OperationRange, Content;
    LeftFirstCuts(base, l, r);
    RightFirstCuts(base, l, r);
    DeltaIs(l);
    InsertIsPoint(l);
    var rl, rr := OperationRange(l), OperationRange(r);
    if rl.end <= |base| {
      CutsCommute(base, rl.start, rl.end, Content(l), rr.start, rr.end, Content(r));
    } else {
      CutBeyond(base, rl.start, rl.end, Content(l), rr.start, rr.end, Content(r));
      if l.Insert? {
        InsertBeyond(base, rl.start, Content(l), Content(r));
      } else {
        DeleteBeyond(base, rl.start, rl.end, Content(r));
      }
    }
  }

  lemma InsertIsPoint(op: Operation)
    ensures if op.Insert? then OperationRange(op).start == OperationRange(op).end else Content(op) == ""
  {
  }

  /** For all operations: merging depends on the order if and only if they are disjoint and interfere. */
  lemma OrderMatters(base: string, a: Operation, b: Operation)
    ensures Merged(base, a, b) != Merged(base, b, a) <==>
            !Collide(a, b) &&
            if OperationRange(a).end <= OperationRange(b).start then Interfere(base, a, b) else Interfere(base, b, a)
  {
    OverlapsEitherWay(a, b);
    OverlapsIsCollide(a, b);
    hide Collide;
    if !Overlaps(a, b) {
      Disjoint(a, b);
      hide Interfere, OperationRange;
      if OperationRange(a).end <= OperationRange(b).start {
        OrderOfTwo(base, a, b);
      } else {
        OrderOfTwo(base, b, a);
      }
    }
  }
}
