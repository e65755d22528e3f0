/** Merging two edits that were computed against the same text. */
module Conflicts {
  import opened Collections

  /** `Other` stands for every operation type that changes nothing. */
  datatype Operation =
    | Insert(position: int, content: string)
    | Delete(position: int, length: int)
    | Other(position: int)

  datatype Range = Range(start: nat, end: nat, delta: int)

  function Max(a: int, b: int): int {
    if a < b then b else a
  }

  function Min(a: int, b: int): int {
    if a < b then a else b
  }

  /** The characters of the text that an operation affects, and by how much it changes the length. */
  function OperationRange(op: Operation): (r: Range)
    ensures r.start <= r.end
  {
    var start := Max(0, op.position);
    match op
    case Insert(_, content) => Range(start, start, |content|)
    case Delete(_, length) => Range(start, start + Max(0, length), -Max(0, length))
    case Other(_) => Range(start, start, 0)
  }

  predicate Overlaps(a: Operation, b: Operation) {
    var ra, rb := OperationRange(a), OperationRange(b);
    if a.Insert? && b.Insert? then ra.start == rb.start
    else if a.Insert? then ra.start > rb.start && ra.start < rb.end
    else if b.Insert? then rb.start > ra.start && rb.start < ra.end
    else ra.start < rb.end && rb.start < ra.end
  }

  /** `s.slice(i)` for a non-negative `i`. */
  function SliceFrom(s: string, i: nat): string {
    s[Min(i, |s|)..]
  }

  function ApplyOperation(text: string, op: Operation): string {
    var position := Max(0, Min(op.position, |text|));
    match op
    case Insert(_, content) => text[..position] + content + text[position..]
    case Delete(_, length) => text[..position] + SliceFrom(text, position + Max(0, length))
    case Other(_) => text
  }

  function Shifted(op: Operation, position: int): Operation {
    match op
    case Insert(_, content) => Insert(position, content)
    case Delete(_, length) => Delete(position, length)
    case Other(_) => Other(position)
  }

  /** The merged text, or nothing if the operations overlap. */
  function Merged(base: string, committed: Operation, incoming: Operation): Option<string> {
    if Overlaps(committed, incoming) then None
    else
      var c, i := OperationRange(committed), OperationRange(incoming);
      var shift := if i.start >= c.end then c.delta else 0;
      Some(ApplyOperation(ApplyOperation(base, committed), Shifted(incoming, Max(0, i.start + shift))))
  }

  // ---------------------------------------------------------------------
  // What a merge should be, position by position
  // ---------------------------------------------------------------------

  /** The range of an operation lies within the text. */
  predicate Within(base: string, op: Operation) {
    OperationRange(op).end <= |base|
  }

  /** What an operation inserts in front of position `i`. */
  function InsertedAt(op: Operation, i: nat): string {
    if op.Insert? && OperationRange(op).start == i then op.content else ""
  }

  predicate Removes(op: Operation, i: nat) {
    OperationRange(op).start <= i < OperationRange(op).end
  }

  predicate IsPoint(op: Operation) {
    OperationRange(op).start == OperationRange(op).end
  }

  /** The operation removes nothing itself, and the other one the characters on both sides of it. */
  predicate IsInside(op: Operation, other: Operation) {
    var p := OperationRange(op).start;
    IsPoint(op) && p > 0 && Removes(other, p - 1) && Removes(other, p)
  }

  /**
    * Two operations collide: both insert in the same place, or both remove a character, or one of them removes
    * nothing itself and lies inside what the other removes.
    */
  ghost predicate Collide(a: Operation, b: Operation) {
    || (a.Insert? && b.Insert? && OperationRange(a).start == OperationRange(b).start)
    || (exists i: nat :: Removes(a, i) && Removes(b, i))
    || IsInside(a, b) || IsInside(b, a)
  }

  /** The test on ranges finds exactly the collisions. */
  lemma OverlapsIsCollide(a: Operation, b: Operation)
    ensures Overlaps(a, b) <==> Collide(a, b)
  {
    var ra, rb := OperationRange(a), OperationRange(b);
    if Overlaps(a, b) && !IsPoint(a) && !IsPoint(b) {
      var i: nat := Max(ra.start, rb.start);
      assert Removes(a, i) && Removes(b, i);
    }
  }

  /** What becomes of position `i`. */
  function Here(base: string, a: Operation, b: Operation, i: nat): string
    requires i < |base|
  {
    InsertedAt(a, i) + InsertedAt(b, i) + if Removes(a, i) || Removes(b, i) then "" else [base[i]]
  }

  /** The text from position `i` on, with both insertions in place and without the characters either removes. */
  function Woven(base: string, a: Operation, b: Operation, i: nat): string
    requires i <= |base|
    decreases |base| - i
  {
    if i == |base| then InsertedAt(a, i) + InsertedAt(b, i) else Here(base, a, b, i) + Woven(base, a, b, i + 1)
  }

  /** The text an operation puts in place of its range. */
  function Content(op: Operation): string {
    if op.Insert? then op.content else ""
  }

  /** The text before the right operation, once the left one has been carried out. */
  function LeftPart(base: string, l: Operation, r: Operation): string
    requires OperationRange(l).end <= OperationRange(r).start && Within(base, r)
  {
    base[..OperationRange(l).start] + Content(l) + base[OperationRange(l).end..OperationRange(r).start]
  }

  /** The text after the left operation, once the right one has been carried out. */
  function RightPart(base: string, l: Operation, r: Operation): string
    requires OperationRange(l).end <= OperationRange(r).start && Within(base, r)
  {
    base[OperationRange(l).end..OperationRange(r).start] + Content(r) + base[OperationRange(r).end..]
  }

  /** Both operations carried out, the first one to the left of the second. */
  function LeftRight(base: string, l: Operation, r: Operation): string
    requires OperationRange(l).end <= OperationRange(r).start && Within(base, r)
  {
    LeftPart(base, l, r) + Content(r) + base[OperationRange(r).end..]
  }

  /** The change in length is what an operation puts in minus what it takes out. */
  lemma DeltaIs(op: Operation)
    ensures OperationRange(op).delta == |Content(op)| - (OperationRange(op).end - OperationRange(op).start)
    ensures OperationRange(op).start != OperationRange(op).end ==> Content(op) == ""
  {
  }

  lemma ApplySplit(left: string, mid: string, right: string, op: Operation)
    requires |mid| == OperationRange(op).end - OperationRange(op).start
    ensures ApplyOperation(left + mid + right, Shifted(op, |left|)) == left + Content(op) + right
  {
    var text := left + mid + right;
    assert text[..|left|] == left;
    if op.Delete? {
      assert text[|left| + |mid|..] == right;
    } else {
      assert text[|left|..] == right;
      assert left + "" + right == text;
    }
  }

  /** Applying one operation to the base text. */
  lemma ApplyOne(base: string, op: Operation)
    requires Within(base, op)
    ensures var r := OperationRange(op); ApplyOperation(base, op) == base[..r.start] + Content(op) + base[r.end..]
  {
    var r := OperationRange(op);
    assert Max(0, Min(op.position, |base|)) == r.start;
    match op
    case Insert(_, content) =>
      assert r.start == r.end;
    case Delete(_, length) =>
      assert r.end == r.start + Max(0, length) && SliceFrom(base, r.end) == base[r.end..];
      KeepsNothingMore(base[..r.start], base[r.end..]);
    case Other(_) =>
      assert r.start == r.end;
      KeepsNothingMore(base[..r.start], base[r.start..]);
      assert base[..r.start] + base[r.start..] == base;
  }

  lemma KeepsNothingMore(left: string, right: string)
    ensures left + "" + right == left + right
  {
  }

  // Cutting and rejoining strings.

  lemma RejoinRight(base: string, i: nat, j: nat, m: nat, n: nat, c: string)
    requires i <= j <= m <= n <= |base|
    ensures base[..i] + c + base[j..] == (base[..i] + c + base[j..m]) + base[m..n] + base[n..]
  {
    assert base[j..] == base[j..m] + base[m..n] + base[n..];
  }

  lemma RejoinLeft(base: string, i: nat, j: nat, m: nat, n: nat, c: string)
    requires i <= j <= m <= n <= |base|
    ensures base[..m] + c + base[n..] == base[..i] + base[i..j] + (base[j..m] + c + base[n..])
  {
    assert base[..m] == base[..i] + base[i..j] + base[j..m];
  }

  lemma Regroup(a: string, b: string, c: string, d: string, e: string)
    ensures a + b + (c + d + e) == a + b + c + d + e
    ensures a + (b + c + (d + e)) == a + b + c + d + e
    ensures a + (b + d + e) == a + b + "" + d + e
  {
  }

  lemma AfterLeft(base: string, l: Operation, r: Operation)
    requires OperationRange(l).end <= OperationRange(r).start && Within(base, r)
    ensures var rl, rr := OperationRange(l), OperationRange(r);
            && ApplyOperation(base, l) == LeftPart(base, l, r) + base[rr.start..rr.end] + base[rr.end..]
            && |LeftPart(base, l, r)| == rr.start + rl.delta
  {
    var rl, rr := OperationRange(l), OperationRange(r);
    DeltaIs(l);
    ApplyOne(base, l);
    hide OperationRange, ApplyOperation, Content;
    RejoinRight(base, rl.start, rl.end, rr.start, rr.end, Content(l));
  }

  lemma AfterRight(base: string, l: Operation, r: Operation)
    requires OperationRange(l).end <= OperationRange(r).start && Within(base, r)
    ensures var rl := OperationRange(l);
            && ApplyOperation(base, r) == base[..rl.start] + base[rl.start..rl.end] + RightPart(base, l, r)
            && base[..rl.start] + Content(l) + RightPart(base, l, r) == LeftRight(base, l, r)
  {
    var rl, rr := OperationRange(l), OperationRange(r);
    ApplyOne(base, r);
    hide OperationRange, ApplyOperation, Content;
    RejoinLeft(base, rl.start, rl.end, rr.start, rr.end, Content(r));
    Regroup(base[..rl.start], Content(l), base[rl.end..rr.start], Content(r), base[rr.end..]);
  }

  /** First the left operation, then the right one moved by the change in length. */
  lemma LeftFirst(base: string, l: Operation, r: Operation)
    requires OperationRange(l).end <= OperationRange(r).start && Within(base, r) && !Overlaps(l, r)
    ensures Merged(base, l, r) == Some(LeftRight(base, l, r))
  {
    hide OperationRange, ApplyOperation, Shifted, Content, Overlaps, LeftPart;
    var rr := OperationRange(r);
    AfterLeft(base, l, r);
    ApplySplit(LeftPart(base, l, r), base[rr.start..rr.end], base[rr.end..], r);
  }

  /** First the right operation, then the left one where it was. */
  lemma RightFirst(base: string, l: Operation, r: Operation)
    requires OperationRange(l).end <= OperationRange(r).start && Within(base, r) && !Overlaps(l, r)
    ensures Merged(base, r, l) == Some(LeftRight(base, l, r))
  {
    hide OperationRange, ApplyOperation, Shifted, Content, Overlaps, LeftRight, RightPart;
    var rl, rr := OperationRange(l), OperationRange(r);
    if rl.start >= rr.end && rr.delta != 0 {
      SameSpot(base, l, r);
    } else {
      OverlapsEitherWay(l, r);
      AfterRight(base, l, r);
      ApplySplit(base[..rl.start], base[rl.start..rl.end], RightPart(base, l, r), l);
    }
  }

  lemma OverlapsEitherWay(a: Operation, b: Operation)
    ensures Overlaps(a, b) <==> Overlaps(b, a)
  {
  }

  /** Both ranges are the same empty one and only the right operation inserts: the left one changes nothing anywhere. */
  lemma SameSpot(base: string, l: Operation, r: Operation)
    requires OperationRange(l).end <= OperationRange(r).start && Within(base, r) && !Overlaps(l, r)
    requires OperationRange(l).start >= OperationRange(r).end && OperationRange(r).delta != 0
    ensures Merged(base, r, l) == Some(LeftRight(base, l, r))
  {
    OnlyOneInserts(l, r);
    ApplyOne(base, r);
    DeltaIs(l);
    hide OperationRange, ApplyOperation, Shifted, Content, Overlaps;
    var rl, rr := OperationRange(l), OperationRange(r);
    EmptyCut(base, rl.start);
    OverlapsEitherWay(l, r);
    ChangesNothing(ApplyOperation(base, r), Shifted(l, Max(0, rl.start + rr.delta)));
  }

  lemma OnlyOneInserts(l: Operation, r: Operation)
    requires OperationRange(l).end <= OperationRange(r).start && !Overlaps(l, r)
    requires OperationRange(l).start >= OperationRange(r).end && OperationRange(r).delta != 0
    ensures var rl, rr := OperationRange(l), OperationRange(r);
            && rl.start == rl.end == rr.start == rr.end && Content(l) == ""
            && forall p: nat :: Content(Shifted(l, p)) == "" &&
                                OperationRange(Shifted(l, p)).start == OperationRange(Shifted(l, p)).end
  {
  }

  lemma EmptyCut(base: string, p: nat)
    requires p <= |base|
    ensures base[..p] + "" + base[p..p] == base[..p]
  {
  }

  lemma ChangesNothing(text: string, op: Operation)
    requires Content(op) == "" && OperationRange(op).start == OperationRange(op).end
    ensures ApplyOperation(text, op) == text
  {
  }

  lemma Disjoint(a: Operation, b: Operation)
    requires !Overlaps(a, b)
    ensures OperationRange(a).end <= OperationRange(b).start || OperationRange(b).end <= OperationRange(a).start
  {
  }

  // ---------------------------------------------------------------------
  // Weaving
  // ---------------------------------------------------------------------

  /** A stretch that neither operation touches is copied. */
  lemma {:induction false} WovenCopies(base: string, a: Operation, b: Operation, i: nat, j: nat)
    requires i <= j <= |base|
    requires forall k :: i <= k < j ==>
               InsertedAt(a, k) == "" && InsertedAt(b, k) == "" && !Removes(a, k) && !Removes(b, k)
    ensures Woven(base, a, b, i) == base[i..j] + Woven(base, a, b, j)
    decreases j - i
  {
    hide OperationRange, InsertedAt, Removes, Here, Woven;
    if i < j {
      WovenCopies(base, a, b, i + 1, j);
      HereKept(base, a, b, i);
      assert Here(base, a, b, i) == [base[i]];
      WovenStep(base, a, b, i);
      assert base[i..j] == [base[i]] + base[i + 1..j];
    } else {
      assert base[i..j] == "";
    }
  }

  lemma WovenStep(base: string, a: Operation, b: Operation, i: nat)
    requires i < |base|
    ensures Woven(base, a, b, i) == Here(base, a, b, i) + Woven(base, a, b, i + 1)
  {
  }

  /** A stretch that one operation removes is dropped. */
  lemma {:induction false} WovenDrops(base: string, a: Operation, b: Operation, i: nat, j: nat)
    requires i <= j <= |base|
    requires forall k :: i <= k < j ==>
               InsertedAt(a, k) == "" && InsertedAt(b, k) == "" && (Removes(a, k) || Removes(b, k))
    ensures Woven(base, a, b, i) == Woven(base, a, b, j)
    decreases j - i
  {
    hide OperationRange, InsertedAt, Removes, Here, Woven;
    if i < j {
      WovenDrops(base, a, b, i + 1, j);
      HereRemoved(base, a, b, i);
      WovenStep(base, a, b, i);
    }
  }

  lemma HereKept(base: string, a: Operation, b: Operation, i: nat)
    requires i < |base| && !Removes(a, i) && !Removes(b, i)
    ensures Here(base, a, b, i) == InsertedAt(a, i) + InsertedAt(b, i) + [base[i]]
  {
    hide OperationRange, InsertedAt, Removes;
  }

  lemma HereRemoved(base: string, a: Operation, b: Operation, i: nat)
    requires i < |base| && (Removes(a, i) || Removes(b, i))
    ensures Here(base, a, b, i) == InsertedAt(a, i) + InsertedAt(b, i)
  {
    hide OperationRange, InsertedAt, Removes;
  }

  lemma Attach(c: string, base: string, i: nat, j: nat, rest: string)
    requires i < j <= |base|
    ensures c + [base[i]] + (base[i + 1..j] + rest) == c + base[i..j] + rest
    ensures c + [base[i]] + base[i + 1..] == c + base[i..]
  {
    assert base[i..j] == [base[i]] + base[i + 1..j];
    assert base[i..] == [base[i]] + base[i + 1..];
  }

  /** From where both operations are over, the text is copied. */
  lemma WovenEnds(base: string, a: Operation, b: Operation, i: nat)
    requires i <= |base|
    requires forall k :: i <= k ==> InsertedAt(a, k) == "" && InsertedAt(b, k) == "" && !Removes(a, k) && !Removes(b, k)
    ensures Woven(base, a, b, i) == base[i..]
  {
    hide OperationRange, InsertedAt, Removes;
    WovenCopies(base, a, b, i, |base|);
    assert base[i..|base|] == base[i..];
  }

  /** An insertion, of either operation, where nothing is removed and after which the other operation does nothing. */
  lemma WovenLast(base: string, a: Operation, b: Operation, i: nat, content: string)
    requires i <= |base| && InsertedAt(a, i) + InsertedAt(b, i) == content && !Removes(a, i) && !Removes(b, i)
    requires forall k :: i < k ==> InsertedAt(a, k) == "" && InsertedAt(b, k) == "" && !Removes(a, k) && !Removes(b, k)
    ensures Woven(base, a, b, i) == content + base[i..]
  {
    hide OperationRange, InsertedAt, Removes;
    if i < |base| {
      HereKept(base, a, b, i);
      WovenEnds(base, a, b, i + 1);
      Attach(content, base, i, |base|, "");
    } else {
      NothingAfter(content, base);
    }
  }

  /** A removal, of either operation, after which there is nothing to do. */
  lemma WovenRemoval(base: string, a: Operation, b: Operation, i: nat, j: nat)
    requires i < j <= |base|
    requires forall k :: i <= k < j ==> Removes(a, k) || Removes(b, k)
    requires forall k :: i < k ==> InsertedAt(a, k) == "" && InsertedAt(b, k) == ""
    requires forall k :: j <= k ==> !Removes(a, k) && !Removes(b, k)
    ensures Woven(base, a, b, i) == InsertedAt(a, i) + InsertedAt(b, i) + base[j..]
  {
    hide OperationRange, InsertedAt, Removes, Here, Woven;
    WovenDrops(base, a, b, i + 1, j);
    WovenEnds(base, a, b, j);
    HereRemoved(base, a, b, i);
    WovenStep(base, a, b, i);
  }

  /** What is left of the weave where both operations have begun, or only the right one is left. */
  lemma WovenRight(base: string, l: Operation, r: Operation)
    requires OperationRange(l).end <= OperationRange(r).start && Within(base, r) && !Overlaps(l, r)
    ensures var rr := OperationRange(r);
            Woven(base, l, r, rr.start) ==
            (if OperationRange(l).start == rr.start then Content(l) else "") + Content(r) + base[rr.end..]
  {
    var rl, rr := OperationRange(l), OperationRange(r);
    if rr.start < rr.end {
      WovenRemoval(base, l, r, rr.start, rr.end);
    } else {
      WovenLast(base, l, r, rr.start, (if rl.start == rr.start then Content(l) else "") + Content(r));
    }
  }

  lemma WovenIsLeftRight(base: string, l: Operation, r: Operation)
    requires OperationRange(l).end <= OperationRange(r).start && Within(base, r) && !Overlaps(l, r)
    ensures Woven(base, l, r, 0) == LeftRight(base, l, r)
  {
    hide Content, Woven, Overlaps;
    var rl, rr := OperationRange(l), OperationRange(r);
    WovenBegins(base, l, r);
    WovenRight(base, l, r);
    DeltaIs(l);
    if rl.start < rl.end {
      WovenLeftRemoval(base, l, r);
      EmptyInFront(base[rl.end..rr.start]);
    } else if rl.start < rr.start {
      WovenLeftInsertion(base, l, r);
    }
    hide OperationRange;
    NothingBetween(base, rl.end, rr.start);
    EmptyInFront(Content(r));
    Regroup(base[..rl.start], Content(l), base[rl.end..rr.start], Content(r), base[rr.end..]);
  }

  lemma NothingBetween(base: string, i: nat, j: nat)
    requires i <= j <= |base|
    ensures i == j ==> base[i..j] == ""
  {
  }

  lemma EmptyInFront(c: string)
    ensures "" + c == c
  {
  }

  /** Before the left operation, the text is copied. */
  lemma WovenBegins(base: string, l: Operation, r: Operation)
    requires OperationRange(l).end <= OperationRange(r).start && Within(base, r)
    ensures Woven(base, l, r, 0) == base[..OperationRange(l).start] + Woven(base, l, r, OperationRange(l).start)
  {
    var i := OperationRange(l).start;
    WovenCopies(base, l, r, 0, i);
    hide Woven;
    assert base[0..i] == base[..i];
  }

  /** From the left operation, if it removes, to the right one. */
  lemma WovenLeftRemoval(base: string, l: Operation, r: Operation)
    requires OperationRange(l).end <= OperationRange(r).start && Within(base, r)
    requires OperationRange(l).start < OperationRange(l).end
    ensures var rl, rr := OperationRange(l), OperationRange(r);
            Woven(base, l, r, rl.start) == base[rl.end..rr.start] + Woven(base, l, r, rr.start)
  {
    var rl, rr := OperationRange(l), OperationRange(r);
    WovenDrops(base, l, r, rl.start, rl.end);
    WovenCopies(base, l, r, rl.end, rr.start);
  }

  /** From the left operation, if it removes nothing, to the right one. */
  lemma WovenLeftInsertion(base: string, l: Operation, r: Operation)
    requires OperationRange(l).end <= OperationRange(r).start && Within(base, r)
    requires OperationRange(l).start == OperationRange(l).end < OperationRange(r).start
    ensures var rl, rr := OperationRange(l), OperationRange(r);
            Woven(base, l, r, rl.start) == Content(l) + base[rl.end..rr.start] + Woven(base, l, r, rr.start)
  {
    hide Here, Woven, Content, ApplyOperation, Merged;
    var rl, rr := OperationRange(l), OperationRange(r);
    HereKept(base, l, r, rl.start);
    WovenCopies(base, l, r, rl.start + 1, rr.start);
    WovenStep(base, l, r, rl.start);
    OnlyLeft(l, r);
    hide OperationRange, InsertedAt, Removes;
    Attach(Content(l), base, rl.start, rr.start, Woven(base, l, r, rr.start));
  }

  lemma OnlyLeft(l: Operation, r: Operation)
    requires OperationRange(l).start < OperationRange(r).start && OperationRange(l).start == OperationRange(l).end
    ensures InsertedAt(l, OperationRange(l).start) + InsertedAt(r, OperationRange(l).start) == Content(l)
  {
  }

  lemma NothingAfter(content: string, base: string)
    ensures content + base[|base|..] == content
  {
  }

  /** Two disjoint operations insert at no common position, so the weave does not depend on their order. */
  lemma {:induction false} WovenSymmetric(base: string, a: Operation, b: Operation, i: nat)
    requires !Overlaps(a, b) && i <= |base|
    ensures Woven(base, a, b, i) == Woven(base, b, a, i)
    decreases |base| - i
  {
    assert InsertedAt(a, i) == "" || InsertedAt(b, i) == "";
    hide OperationRange, InsertedAt, Removes, Overlaps;
    assert InsertedAt(a, i) + InsertedAt(b, i) == InsertedAt(b, i) + InsertedAt(a, i);
    if i < |base| {
      WovenSymmetric(base, a, b, i + 1);
    }
  }

  /**
    * For operations within the base text: a merge succeeds exactly if the operations do not overlap, it then
    * has every insertion and lacks exactly the removed characters, and the order of merging makes no difference.
    */
  lemma MergeConverges(base: string, a: Operation, b: Operation)
    requires Within(base, a) && Within(base, b)
    ensures Merged(base, a, b) == Merged(base, b, a)
    ensures Merged(base, a, b).Some? <==> !Collide(a, b)
    ensures !Collide(a, b) ==> Merged(base, a, b) == Some(Woven(base, a, b, 0))
  {
    OverlapsIsCollide(a, b);
    hide Collide;
    if !Overlaps(a, b) {
      Disjoint(a, b);
      if OperationRange(a).end <= OperationRange(b).start {
        LeftFirst(base, a, b);
        RightFirst(base, a, b);
        WovenIsLeftRight(base, a, b);
      } else {
        LeftFirst(base, b, a);
        RightFirst(base, b, a);
        WovenIsLeftRight(base, b, a);
        WovenSymmetric(base, a, b, 0);
      }
    }
  }

  /** Deleting what was just inserted gives the text back, if and only if the insertion was not beyond the text. */
  lemma DeleteUndoesInsert(text: string, p: int, c: string)
    ensures ApplyOperation(ApplyOperation(text, Insert(p, c)), Delete(p, |c|)) == text <==> p <= |text| || c == ""
  {
    var at := Max(0, Min(p, |text|));
    var after := ApplyOperation(text, Insert(p, c));
    assert after == text[..at] + c + text[at..];
    var back := ApplyOperation(after, Delete(p, |c|));
    if p <= |text| {
      assert after[..at] == text[..at] && after[at + |c|..] == text[at..];
      assert text[..at] + text[at..] == text;
    } else if c == "" {
      assert after == text;
    } else {
      assert |back| > |text|;
    }
  }

  /** Beyond the end of the text, clamping makes the order matter. */
  lemma OutsideTheTextOrderMatters()
    ensures Merged("a", Insert(5, "x"), Insert(7, "y")) == Some("axy")
    ensures Merged("a", Insert(7, "y"), Insert(5, "x")) == Some("ayx")
  {
    assert ApplyOperation("a", Insert(5, "x")) == "ax";
    assert ApplyOperation("ax", Insert(8, "y")) == "axy";
    assert ApplyOperation("a", Insert(7, "y")) == "ay";
    assert ApplyOperation("ay", Insert(5, "x")) == "ayx";
  }

  class ConflictResolver {
    var checks: nat
    var conflicts: nat
    var merges: nat

    constructor ()
      ensures checks == conflicts == merges == 0
    {
      checks, conflicts, merges := 0, 0, 0;
    }

    /** The version check; fails if the page is not at the version that the client saw. */
    method AssertNoConflict(expectedVersion: nat, actualVersion: nat) returns (ok: bool)
      modifies this
      ensures ok == (expectedVersion == actualVersion)
      ensures checks == old(checks) + 1 && conflicts == old(conflicts) + (if ok then 0 else 1) && merges == old(merges)
    {
      checks := checks + 1;
      if expectedVersion == actualVersion {
        return true;
      }
      conflicts := conflicts + 1;
      ok := false;
    }

    /** Applies a second operation on top of a first one. */
    method Merge(base: string, committed: Operation, incoming: Operation) returns (text: Option<string>)
      modifies this
      ensures text == Merged(base, committed, incoming)
      ensures text.Some? <==> !Collide(committed, incoming)
      ensures Within(base, committed) && Within(base, incoming) && text.Some? ==>
                text.value == Woven(base, committed, incoming, 0)
      ensures merges == old(merges) + (if text.Some? then 1 else 0)
      ensures checks == old(checks) && conflicts == old(conflicts)
    {
      hide OperationRange, ApplyOperation, Shifted, Overlaps, Woven, Collide;
      OverlapsIsCollide(committed, incoming);
      if Within(base, committed) && Within(base, incoming) {
        MergeConverges(base, committed, incoming);
      }
      if Overlaps(committed, incoming) {
        return None;
      }
      var c, i := OperationRange(committed), OperationRange(incoming);
      var shift := if i.start >= c.end then c.delta else 0;
      var shiftedOp := Shifted(incoming, Max(0, i.start + shift));
      var afterFirst := ApplyOperation(base, committed);
      merges := merges + 1;
      text := Some(ApplyOperation(afterFirst, shiftedOp));
    }
  }
}
