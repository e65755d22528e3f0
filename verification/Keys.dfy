/** Keywords in lexicographic order, and the open ends of a key range. */
module Keys {

  type Key = string

  predicate Lt(a: Key, b: Key) {
    && b != []
    && (a == [] || a[0] < b[0] || (a[0] == b[0] && Lt(a[1..], b[1..])))
  }

  datatype Bound = Low | At(key: Key) | High

  predicate Less(a: Bound, b: Bound) {
    match (a, b)
    case (Low, Low) => false
    case (Low, _) => true
    case (At(x), At(y)) => Lt(x, y)
    case (At(_), High) => true
    case _ => false
  }

  predicate AtMost(a: Bound, b: Bound) {
    a == b || Less(a, b)
  }

  lemma {:induction false} LtTotal(a: Key, b: Key)
    ensures a == b || Lt(a, b) || Lt(b, a)
    ensures !(Lt(a, b) && Lt(b, a)) && !Lt(a, a)
  {
    if a != [] && b != [] {
      LtTotal(a[1..], b[1..]);
      LtTotal(a[1..], a[1..]);
      assert a == [a[0]] + a[1..] && b == [b[0]] + b[1..];
    } else if a != [] {
      LtTotal(a[1..], a[1..]);
    }
  }

  lemma {:induction false} LtTrans(a: Key, b: Key, c: Key)
    requires Lt(a, b) && Lt(b, c)
    ensures Lt(a, c)
  {
    if a != [] && a[0] == b[0] == c[0] {
      LtTrans(a[1..], b[1..], c[1..]);
    }
  }

  lemma LessTrans(a: Bound, b: Bound, c: Bound)
    requires AtMost(a, b) && AtMost(b, c)
    ensures AtMost(a, c)
    ensures Less(a, b) || Less(b, c) ==> Less(a, c)
  {
    hide Lt;
    if a.At? && b.At? && c.At? && a != b && b != c {
      LtTrans(a.key, b.key, c.key);
    }
  }

  lemma LessTotal(a: Bound, b: Bound)
    ensures AtMost(a, b) || Less(b, a)
    ensures !(AtMost(a, b) && Less(b, a))
  {
    hide Lt;
    if a.At? && b.At? {
      LtTotal(a.key, b.key);
    }
  }

  predicate Sorted(keys: seq<Key>) {
    forall i, j :: 0 <= i < j < |keys| ==> Less(At(keys[i]), At(keys[j]))
  }

  /** Every key lies in the range from `lo` (not counting `lo` itself when strict) up to `hi`, exclusive. */
  predicate InRange(keys: seq<Key>, lo: Bound, hi: Bound, strict: bool) {
    forall i :: 0 <= i < |keys| ==>
      (if strict then Less(lo, At(keys[i])) else AtMost(lo, At(keys[i]))) && Less(At(keys[i]), hi)
  }
}
