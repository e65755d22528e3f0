/** The log file: framed records appended at the end, and read back up to a torn tail. */
module WriteAheadLog {
  import opened LittleEndian
  import opened Collections
  import Records

  const BEGIN: nat := 1
  const UPDATE: nat := 2
  const COMMIT: nat := 3
  const ABORT: nat := 4
  const CHECKPOINT: nat := 5

  /** Fixed part of the payload: lsn, type, txId, pageId and two lengths. */
  const HEADER: nat := 25

  /** One record of the log; an absent image is an empty one. */
  datatype Entry = Entry(lsn: nat, kind: nat, txId: nat, pageId: nat, before: Bytes, after: Bytes)

  /** Every field fits its place in the frame. */
  predicate Fits(e: Entry) {
    && e.lsn < Limit(8) && e.kind < Limit(1) && e.txId < Limit(4) && e.pageId < Limit(4)
    && HEADER + |e.before| + |e.after| < Limit(4)
  }

  function Fixed(e: Entry): (b: Bytes)
    ensures |b| == HEADER
  {
    Le(e.lsn, 8) + Le(e.kind, 1) + Le(e.txId, 4) + Le(e.pageId, 4) + Le(|e.before|, 4) + Le(|e.after|, 4)
  }

  function Frame(e: Entry): (b: Bytes)
    ensures |b| == 4 + HEADER + |e.before| + |e.after|
  {
    Le(HEADER + |e.before| + |e.after|, 4) + Fixed(e) + e.before + e.after
  }

  function Image(entries: seq<Entry>): Bytes {
    if entries == [] then [] else Image(entries[..|entries| - 1]) + Frame(entries[|entries| - 1])
  }

  /** `b.subarray(i, j)`. */
  function Subarray(b: Bytes, i: nat, j: nat): Bytes
    requires i <= j
  {
    b[if i < |b| then i else |b|..if j < |b| then j else |b|]
  }

  /** The declared length of the payload at the front. */
  function Declared(b: Bytes): nat
    requires |b| >= 4
  {
    FromLe(b[..4])
  }

  predicate Torn(b: Bytes) {
    |b| < 4 || Declared(b) < HEADER || 4 + Declared(b) > |b|
  }

  /** The record at the front. */
  function Head(b: Bytes): Entry
    requires |b| >= 4 + HEADER
  {
    var beforeLength, afterLength := FromLe(b[21..25]), FromLe(b[25..29]);
    Entry(FromLe(b[4..12]), FromLe(b[12..13]), FromLe(b[13..17]), FromLe(b[17..21]),
          Subarray(b, 29, 29 + beforeLength), Subarray(b, 29 + beforeLength, 29 + beforeLength + afterLength))
  }

  /** The whole records in front of the torn tail. */
  function Parse(b: Bytes): seq<Entry>
    decreases |b|
  {
    if Torn(b) then [] else [Head(b)] + Parse(b[4 + Declared(b)..])
  }

  // ---------------------------------------------------------------------
  // Reading inverts writing
  // ---------------------------------------------------------------------

  lemma FrameDeclares(e: Entry, rest: Bytes)
    requires Fits(e)
    ensures Declared(Frame(e) + rest) == HEADER + |e.before| + |e.after| && !Torn(Frame(e) + rest)
    ensures (Frame(e) + rest)[|Frame(e)|..] == rest
  {
    var n := HEADER + |e.before| + |e.after|;
    LeRoundTrip(n, 4);
    hide Le, FromLe, Fixed, Limit;
    assert (Frame(e) + rest)[..4] == Le(n, 4);
  }

  /** Where the fields of a frame lie. */
  lemma FixedFields(e: Entry)
    ensures var f := Fixed(e);
            && f[0..8] == Le(e.lsn, 8) && f[8..9] == Le(e.kind, 1) && f[9..13] == Le(e.txId, 4)
            && f[13..17] == Le(e.pageId, 4) && f[17..21] == Le(|e.before|, 4) && f[21..25] == Le(|e.after|, 4)
  {
    hide Le;
    Fields(Le(e.lsn, 8), Le(e.kind, 1), Le(e.txId, 4), Le(e.pageId, 4), Le(|e.before|, 4), Le(|e.after|, 4));
  }

  lemma Fields(a: Bytes, b: Bytes, c: Bytes, d: Bytes, e: Bytes, g: Bytes)
    requires |a| == 8 && |b| == 1 && |c| == |d| == |e| == |g| == 4
    ensures var f := a + b + c + d + e + g;
            f[0..8] == a && f[8..9] == b && f[9..13] == c && f[13..17] == d && f[17..21] == e && f[21..25] == g
  {
    var f3 := a + b + c;
    assert f3[0..8] == a && f3[8..9] == b && f3[9..13] == c;
    var f4 := f3 + d;
    assert f4[0..8] == a && f4[8..9] == b && f4[9..13] == c && f4[13..17] == d;
    var f5 := f4 + e;
    assert f5[0..8] == a && f5[8..9] == b && f5[9..13] == c && f5[13..17] == d && f5[17..21] == e;
    var f := f5 + g;
    assert f[0..8] == a && f[8..9] == b && f[9..13] == c && f[13..17] == d && f[17..21] == e && f[21..25] == g;
  }

  lemma FrameParts(e: Entry, rest: Bytes)
    ensures var b := Frame(e) + rest;
            && b[4..29] == Fixed(e)
            && Subarray(b, 29, 29 + |e.before|) == e.before
            && Subarray(b, 29 + |e.before|, 29 + |e.before| + |e.after|) == e.after
  {
    hide Le, Fixed;
    Parts(Le(HEADER + |e.before| + |e.after|, 4), Fixed(e), e.before, e.after, rest);
  }

  lemma Middle(a: Bytes, m: Bytes, c: Bytes, i: nat, j: nat)
    requires i == |a| && j == |a| + |m|
    ensures (a + m + c)[i..j] == m
  {
  }

  lemma Parts(a: Bytes, f: Bytes, x: Bytes, y: Bytes, rest: Bytes)
    requires |a| == 4 && |f| == 25
    ensures (a + f + x + y + rest)[4..29] == f
    ensures (a + f + x + y + rest)[29..29 + |x|] == x
    ensures (a + f + x + y + rest)[29 + |x|..29 + |x| + |y|] == y
  {
    assert a + f + x + y + rest == a + f + (x + y + rest);
    Middle(a, f, x + y + rest, 4, 29);
    assert a + f + x + y + rest == (a + f) + x + (y + rest);
    Middle(a + f, x, y + rest, 29, 29 + |x|);
    Middle(a + f + x, y, rest, 29 + |x|, 29 + |x| + |y|);
  }

  lemma Within(b: Bytes, i: nat, j: nat)
    requires i <= j <= 25 && |b| >= 29
    ensures b[4..29][i..j] == b[4 + i..4 + j]
  {
    var s, t := b[4..29][i..j], b[4 + i..4 + j];
    assert |s| == |t|;
    forall k | 0 <= k < |s|
      ensures s[k] == t[k]
    {
      assert s[k] == b[4..29][i + k] == b[4 + i + k];
    }
  }

  lemma HeadOfFrame(e: Entry, rest: Bytes)
    requires Fits(e)
    ensures Head(Frame(e) + rest) == e
  {
    var b := Frame(e) + rest;
    FrameParts(e, rest);
    FixedFields(e);
    Within(b, 0, 8);
    Within(b, 8, 9);
    Within(b, 9, 13);
    Within(b, 13, 17);
    Within(b, 17, 21);
    Within(b, 21, 25);
    LeRoundTrip(e.lsn, 8);
    LeRoundTrip(e.kind, 1);
    LeRoundTrip(e.txId, 4);
    LeRoundTrip(e.pageId, 4);
    LeRoundTrip(|e.before|, 4);
    LeRoundTrip(|e.after|, 4);
    hide Le, FromLe, Limit, Frame, Fixed, Subarray;
  }

  lemma ParseFrame(e: Entry, rest: Bytes)
    requires Fits(e)
    ensures Parse(Frame(e) + rest) == [e] + Parse(rest)
  {
    FrameDeclares(e, rest);
    HeadOfFrame(e, rest);
    hide Frame, Head, Declared, Fits;
  }

  ghost predicate AllFit(entries: seq<Entry>) {
    forall i :: 0 <= i < |entries| ==> Fits(entries[i])
  }

  lemma {:induction false} ImageConcat(first: seq<Entry>, second: seq<Entry>)
    ensures Image(first + second) == Image(first) + Image(second)
    decreases |second|
  {
    hide Frame;
    if second == [] {
      assert first + second == first;
      assert Image(first) + [] == Image(first);
    } else {
      var n := |second| - 1;
      ImageConcat(first, second[..n]);
      assert (first + second)[..|first| + n] == first + second[..n];
      assert Image(first) + Image(second[..n]) + Frame(second[n]) ==
             Image(first) + (Image(second[..n]) + Frame(second[n]));
    }
  }

  lemma ImageOfOne(e: Entry)
    ensures Image([e]) == Frame(e)
  {
    hide Frame;
    assert [e][..0] == [];
  }

  /** Whole records are read back in front of whatever follows them. */
  lemma {:induction false} ParseImage(entries: seq<Entry>, rest: Bytes)
    requires AllFit(entries)
    ensures Parse(Image(entries) + rest) == entries + Parse(rest)
    decreases |entries|
  {
    hide Frame, Fits, Parse;
    if entries == [] {
      assert Image(entries) + rest == rest;
    } else {
      ImageConcat([entries[0]], entries[1..]);
      ImageOfOne(entries[0]);
      assert entries == [entries[0]] + entries[1..];
      ParseFrame(entries[0], Image(entries[1..]) + rest);
      ParseImage(entries[1..], rest);
      assert Frame(entries[0]) + Image(entries[1..]) + rest == Frame(entries[0]) + (Image(entries[1..]) + rest);
    }
  }

  lemma NothingToParse()
    ensures Parse([]) == []
  {
  }

  /** `readAll` inverts `append`. */
  lemma ReadsBack(entries: seq<Entry>)
    requires AllFit(entries)
    ensures Parse(Image(entries)) == entries
  {
    ParseImage(entries, []);
    NothingToParse();
    assert Image(entries) + [] == Image(entries);
  }

  // ---------------------------------------------------------------------
  // Torn tails
  // ---------------------------------------------------------------------

  /** A cut frame is torn. */
  lemma CutFrame(e: Entry, k: nat)
    requires Fits(e) && k < |Frame(e)|
    ensures Parse(Frame(e)[..k]) == []
  {
    FrameDeclares(e, []);
    assert Frame(e) + [] == Frame(e);
    if k >= 4 {
      assert Frame(e)[..k][..4] == Frame(e)[..4];
    }
  }

  /** How many records fit whole in the first `k` bytes. */
  function Whole(entries: seq<Entry>, k: nat): (m: nat)
    ensures m <= |entries|
  {
    if entries == [] || |Image(entries)| <= k then |entries| else Whole(entries[..|entries| - 1], k)
  }

  lemma {:induction false} WholeFits(entries: seq<Entry>, k: nat)
    ensures var m := Whole(entries, k);
            && |Image(entries[..m])| <= k
            && (m < |entries| ==> |Image(entries[..m + 1])| > k)
  {
    hide Frame;
    if entries == [] || |Image(entries)| <= k {
      assert entries[..|entries|] == entries;
    } else {
      var n := |entries| - 1;
      WholeFits(entries[..n], k);
      var m := Whole(entries[..n], k);
      assert entries[..n][..m] == entries[..m];
      if m < n {
        assert entries[..n][..m + 1] == entries[..m + 1];
      } else {
        assert entries[..m + 1] == entries;
      }
    }
  }

  /** A log cut after any number of bytes reads back as exactly the records that fit whole. */
  lemma TruncationKeepsWholeRecords(entries: seq<Entry>, k: nat)
    requires AllFit(entries) && k <= |Image(entries)|
    ensures Parse(Image(entries)[..k]) == entries[..Whole(entries, k)]
  {
    WholeFits(entries, k);
    hide Frame, Fits, Parse, Whole, Image;
    var m := Whole(entries, k);
    if m == |entries| {
      assert entries[..m] == entries;
      assert Image(entries)[..k] == Image(entries);
      ReadsBack(entries);
    } else {
      var front, e := Image(entries[..m]), entries[m];
      ImageSplit(entries, m);
      CutAfter(front, Frame(e), Image(entries[m + 1..]), k);
      CutFrame(e, k - |front|);
      ParseImage(entries[..m], Frame(e)[..k - |front|]);
      assert entries[..m] + [] == entries[..m];
    }
  }

  lemma ImageSplit(entries: seq<Entry>, m: nat)
    requires m < |entries|
    ensures Image(entries) == Image(entries[..m]) + Frame(entries[m]) + Image(entries[m + 1..])
    ensures Image(entries[..m + 1]) == Image(entries[..m]) + Frame(entries[m])
  {
    hide Frame, Image;
    SplitAround(entries, m);
    ImageConcat(entries[..m], [entries[m]]);
    ImageOfOne(entries[m]);
    ImageConcat(entries[..m + 1], entries[m + 1..]);
  }

  lemma SplitAround(entries: seq<Entry>, m: nat)
    requires m < |entries|
    ensures entries[..m + 1] == entries[..m] + [entries[m]]
    ensures entries == entries[..m + 1] + entries[m + 1..]
  {
  }

  lemma CutAfter(a: Bytes, b: Bytes, c: Bytes, k: nat)
    requires |a| <= k <= |a| + |b|
    ensures (a + b + c)[..k] == a + b[..k - |a|]
  {
  }

  // ---------------------------------------------------------------------
  // Appending behind a torn tail
  // ---------------------------------------------------------------------

  /**
    * A torn tail is left in place, and what is appended behind it reads as part of the torn record: too little of it is
    * lost altogether, and otherwise as many bytes as were missing go into one mixed-up record, and reading goes on
    * behind them.
    */
  lemma TornTailSwallows(torn: Entry, k: nat, more: Bytes)
    requires Fits(torn) && 4 <= k <= |Frame(torn)|
    ensures Parse(Frame(torn)[..k] + more) ==
            if k + |more| < |Frame(torn)| then []
            else [Head(Frame(torn)[..k] + more)] + Parse(more[|Frame(torn)| - k..])
  {
    hide Parse, Head, Le, Fits, Fixed;
    FrameDeclares(torn, []);
    assert Frame(torn) + [] == Frame(torn);
    hide Frame;
    var b, n := Frame(torn)[..k] + more, |Frame(torn)|;
    assert b[..4] == Frame(torn)[..4];
    hide Declared;
    FirstRecord(b, n - 4);
    if k + |more| >= n {
      assert b[n..] == more[n - k..];
    }
  }

  lemma FirstRecord(b: Bytes, n: nat)
    requires |b| >= 4 && Declared(b) == n
    ensures Parse(b) == if n < HEADER || 4 + n > |b| then [] else [Head(b)] + Parse(b[4 + n..])
  {
    hide Declared, Head;
  }

  /** With less than the length field in the file, the length is put together from both. */
  lemma {:induction false} LengthAcross(a: Bytes, b: Bytes)
    ensures FromLe(a + b) == FromLe(a) + Limit(|a|) * FromLe(b)
  {
    if a == [] {
      assert a + b == b;
    } else {
      LengthAcross(a[1..], b);
      assert (a + b)[1..] == a[1..] + b;
      Distribute(FromLe(a[1..]), Limit(|a| - 1), FromLe(b));
    }
  }

  lemma Distribute(x: nat, m: nat, y: nat)
    ensures 256 * (x + m * y) == 256 * x + (256 * m) * y
  {
  }

  lemma TornLengthSwallows(torn: Entry, k: nat, more: Bytes)
    requires Fits(torn) && k < 4
    ensures var b := Frame(torn)[..k] + more;
            && (|b| < 4 ==> Parse(b) == [])
            && (|b| >= 4 ==>
                  var n := FromLe(Frame(torn)[..k]) + Limit(k) * FromLe(more[..4 - k]);
                  Parse(b) == if n < HEADER || 4 + n > |b| then [] else [Head(b)] + Parse(more[4 - k + n..]))
  {
    hide Head, Frame, Fits, FromLe, Limit;
    var b := Frame(torn)[..k] + more;
    if |b| >= 4 {
      assert b[..4] == Frame(torn)[..k] + more[..4 - k];
      LengthAcross(Frame(torn)[..k], more[..4 - k]);
      var n := Declared(b);
      hide Declared, Parse;
      FirstRecord(b, n);
      if 4 + n <= |b| {
        assert b[4 + n..] == more[4 - k + n..];
      }
    }
  }

  /** Records appended behind a torn tail survive from the first record boundary on that the torn record ends at. */
  lemma SurvivorsOfTornTail(torn: Entry, k: nat, appended: seq<Entry>, m: nat)
    requires Fits(torn) && 4 <= k <= |Frame(torn)| && AllFit(appended) && m <= |appended|
    requires |Frame(torn)| - k == |Image(appended[..m])|
    ensures Parse(Frame(torn)[..k] + Image(appended)) ==
            [Head(Frame(torn)[..k] + Image(appended))] + appended[m..]
  {
    hide Frame, Fits, Parse, Head, Image;
    ImageConcat(appended[..m], appended[m..]);
    assert appended == appended[..m] + appended[m..];
    var missing := |Frame(torn)| - k;
    assert Image(appended)[missing..] == Image(appended[m..]);
    TornTailSwallows(torn, k, Image(appended));
    ReadsBack(appended[m..]);
  }

  /** A record that does not come back when it is the first one behind a given torn tail. */
  function Unlucky(torn: Entry, k: nat): Entry {
    if k < 12 then Entry(0, 1, 0, 0, [], []) else Entry(if torn.lsn == 0 then 1 else 0, 1, 0, 0, [], [])
  }

  lemma PlainFrame(e: Entry, i: nat)
    requires e == Entry(0, 1, 0, 0, [], []) && 1 <= i < 12
    ensures Frame(e)[i] == 0
  {
    FrameParts(e, []);
    assert Frame(e) + [] == Frame(e);
    FixedFields(e);
    Zeros(8);
    SmallLength();
    assert Frame(e)[..4] == Le(HEADER, 4);
    hide Frame, Fixed, Le;
    if i >= 4 {
      assert Frame(e)[i] == Frame(e)[4..29][i - 4] == Fixed(e)[0..8][i - 4];
    } else {
      assert Frame(e)[i] == Frame(e)[..4][i];
    }
  }

  lemma SmallLength()
    ensures forall i :: 1 <= i < 4 ==> Le(HEADER, 4)[i] == 0
  {
    Zeros(3);
    assert Le(HEADER, 4) == [ByteOf(HEADER % 256)] + Le(0, 3);
    hide Le;
  }

  lemma {:induction false} Zeros(k: nat)
    ensures forall i :: 0 <= i < k ==> Le(0, k)[i] == 0
  {
    if k > 0 {
      Zeros(k - 1);
    }
  }

  lemma UnluckyFits(torn: Entry, k: nat)
    ensures Fits(Unlucky(torn, k))
  {
    Limits();
  }

  /** The kind is then read from a zero byte. */
  lemma KindIsLost(torn: Entry, k: nat, e: Entry)
    requires 0 < k < 12 && k < |Frame(torn)| && e == Entry(0, 1, 0, 0, [], [])
    requires |Frame(torn)[..k] + Frame(e)| >= 4 + HEADER
    ensures Head(Frame(torn)[..k] + Frame(e)) != e
  {
    hide Frame, Head;
    PlainFrame(e, 12 - k);
    ZeroKind(Frame(torn)[..k], Frame(e));
  }

  lemma ZeroKind(x: Bytes, y: Bytes)
    requires |x| < 12 && |x + y| >= 4 + HEADER && y[12 - |x|] == 0
    ensures Head(x + y).kind == 0
  {
    hide FromLe, Subarray;
    assert (x + y)[12] == y[12 - |x|];
    assert (x + y)[12..13] == [0];
    ZeroByte();
  }

  lemma ZeroByte()
    ensures FromLe([0]) == 0
  {
    assert [0 as Byte][1..] == [];
  }

  /** The sequence number is then that of the torn record. */
  lemma NumberIsLost(torn: Entry, k: nat, e: Entry)
    requires Fits(torn) && 12 <= k < |Frame(torn)| && e.lsn != torn.lsn
    requires |Frame(torn)[..k] + Frame(e)| >= 4 + HEADER
    ensures Head(Frame(torn)[..k] + Frame(e)) != e
  {
    FrameParts(torn, []);
    assert Frame(torn) + [] == Frame(torn);
    FixedFields(torn);
    Within(Frame(torn), 0, 8);
    LeRoundTrip(torn.lsn, 8);
    hide Frame, Le, FromLe, Fixed, Subarray;
    assert (Frame(torn)[..k] + Frame(e))[4..12] == Frame(torn)[4..12];
  }

  lemma UnluckyIsLost(torn: Entry, k: nat)
    requires Fits(torn) && 0 < k < |Frame(torn)|
    ensures Parse(Frame(torn)[..k] + Frame(Unlucky(torn, k))) != [Unlucky(torn, k)]
  {
    hide Frame, Head, Declared, Fits;
    var e := Unlucky(torn, k);
    var b := Frame(torn)[..k] + Frame(e);
    if !Torn(b) {
      assert Parse(b)[0] == Head(b);
      if k < 12 {
        KindIsLost(torn, k, e);
      } else {
        NumberIsLost(torn, k, e);
      }
    }
  }

  /**
    * After a log has been cut off anywhere, whatever is appended reads back, behind the whole records, if and only if
    * no part of a record is left at the end.
    */
  lemma AppendReadsBack(entries: seq<Entry>, k: nat)
    requires AllFit(entries) && k <= |Image(entries)|
    ensures (forall appended :: AllFit(appended) ==>
               Parse(Image(entries)[..k] + Image(appended)) == entries[..Whole(entries, k)] + appended) <==>
            k == |Image(entries[..Whole(entries, k)])|
  {
    WholeFits(entries, k);
    hide Frame, Fits, Parse, Whole, Image;
    var m := Whole(entries, k);
    var front := Image(entries[..m]);
    if k == |front| {
      FrontOfImage(entries, m);
      forall appended | AllFit(appended)
        ensures Parse(Image(entries)[..k] + Image(appended)) == entries[..m] + appended
      {
        ParseImage(entries[..m], Image(appended));
        ReadsBack(appended);
      }
    } else {
      WholeAll(entries, k);
      var e, j := entries[m], k - |front|;
      ImageSplit(entries, m);
      CutAfter(front, Frame(e), Image(entries[m + 1..]), k);
      var lost := Unlucky(e, j);
      UnluckyFits(e, j);
      UnluckyIsLost(e, j);
      ImageOfOne(lost);
      ParseImage(entries[..m], Frame(e)[..j] + Frame(lost));
      assert Image(entries)[..k] + Image([lost]) == front + (Frame(e)[..j] + Frame(lost));
      assert AllFit([lost]);
      SameTail(entries[..m], Parse(Frame(e)[..j] + Frame(lost)), [lost]);
    }
  }

  lemma SameTail(front: seq<Entry>, x: seq<Entry>, y: seq<Entry>)
    requires x != y
    ensures front + x != front + y
  {
    assert (front + x)[|front|..] == x && (front + y)[|front|..] == y;
  }

  lemma FrontOfImage(entries: seq<Entry>, m: nat)
    requires m <= |entries|
    ensures |Image(entries[..m])| <= |Image(entries)| && Image(entries)[..|Image(entries[..m])|] == Image(entries[..m])
  {
    hide Image;
    ImageConcat(entries[..m], entries[m..]);
    assert entries == entries[..m] + entries[m..];
  }

  /** If not all records fit whole, the cut falls inside the next one. */
  lemma WholeAll(entries: seq<Entry>, k: nat)
    requires k <= |Image(entries)| && k != |Image(entries[..Whole(entries, k)])|
    ensures Whole(entries, k) < |entries|
    ensures 0 < k - |Image(entries[..Whole(entries, k)])| < |Frame(entries[Whole(entries, k)])|
  {
    WholeFits(entries, k);
    var m := Whole(entries, k);
    assert entries[..|entries|] == entries;
    hide Whole;
    ImageSplit(entries, m);
  }

  // ---------------------------------------------------------------------
  // The log as transactions and recovery see it
  // ---------------------------------------------------------------------

  function KindOf(r: Records.Record): nat {
    match r
    case Begin(_) => BEGIN
    case Update(_, _, _, _) => UPDATE
    case Commit(_) => COMMIT
    case Abort(_) => ABORT
    case Checkpoint => CHECKPOINT
  }

  /** The entry that logs a record. */
  function EntryOf(lsn: nat, r: Records.Record): Entry
    requires !r.Checkpoint? ==> r.txId >= 0
  {
    match r
    case Update(txId, p, before, after) => Entry(lsn, UPDATE, txId, p, before, after)
    case Checkpoint => Entry(lsn, CHECKPOINT, 0, 0, [], [])
    case _ => Entry(lsn, KindOf(r), r.txId, 0, [], [])
  }

  /** The record that recovery takes an entry for. */
  function RecordOf(e: Entry): Records.Record {
    if e.kind == BEGIN then Records.Begin(e.txId)
    else if e.kind == UPDATE then Records.Update(e.txId, e.pageId, e.before, e.after)
    else if e.kind == COMMIT then Records.Commit(e.txId)
    else if e.kind == ABORT then Records.Abort(e.txId)
    else Records.Checkpoint
  }

  lemma RecordSurvives(lsn: nat, r: Records.Record)
    requires !r.Checkpoint? ==> r.txId >= 0
    ensures RecordOf(EntryOf(lsn, r)) == r
  {
  }

  /** One turn of the reading loop. */
  lemma ParseNext(data: Bytes, cursor: nat)
    requires cursor + 4 <= |data|
    ensures var n := FromLe(data[cursor..cursor + 4]);
            Parse(data[cursor..]) ==
            if n < HEADER || cursor + 4 + n > |data| then [] else [Head(data[cursor..])] + Parse(data[cursor + 4 + n..])
  {
    hide FromLe, Head;
    var rest := data[cursor..];
    assert rest[..4] == data[cursor..cursor + 4];
    var n := FromLe(data[cursor..cursor + 4]);
    if !Torn(rest) {
      assert rest[4 + n..] == data[cursor + 4 + n..];
    }
  }

  lemma Regroup(a: seq<Entry>, b: seq<Entry>, c: seq<Entry>)
    ensures a + (b + c) == a + b + c
  {
  }

  lemma ParseShort(b: Bytes)
    requires |b| < 4
    ensures Parse(b) == []
  {
  }

  class WAL {
    var file: Bytes
    var nextLSN: nat
    /** The records appended so far. */
    ghost var entries: seq<Entry>

    /** The file is the image of the entries, whose sequence numbers count up by one. */
    ghost predicate Valid()
      reads this
    {
      && file == Image(entries) && AllFit(entries) && nextLSN == |entries| + 1
      && forall i :: 0 <= i < |entries| ==> entries[i].lsn == i + 1
    }

    constructor ()
      ensures Valid() && entries == []
    {
      file, nextLSN, entries := [], 1, [];
    }

    /** Appends one record and returns its sequence number; a field out of range is an error and writes nothing. */
    method Append(kind: nat, txId: nat, pageId: nat, before: Bytes, after: Bytes) returns (lsn: Option<nat>)
      requires Valid()
      modifies this
      ensures Valid()
      ensures var e := Entry(old(nextLSN), kind, txId, pageId, before, after);
              if Fits(e) then lsn == Some(old(nextLSN)) && entries == old(entries) + [e]
              else lsn == None && entries == old(entries) && file == old(file)
    {
      hide Frame;
      var e := Entry(nextLSN, kind, txId, pageId, before, after);
      if !Fits(e) {
        return None;
      }
      lsn := Some(nextLSN);
      assert (entries + [e])[..|entries|] == entries;
      file := file + Frame(e);
      entries := entries + [e];
      nextLSN := nextLSN + 1;
    }

    /** Reads the whole records of a file. */
    method ReadFile(data: Bytes) returns (records: seq<Entry>)
      ensures records == Parse(data)
    {
      hide FromLe, Head, Parse;
      records := [];
      var cursor := 0;
      assert data[0..] == data && [] + Parse(data) == Parse(data);
      while cursor + 4 <= |data|
        invariant 0 <= cursor <= |data| && records + Parse(data[cursor..]) == Parse(data)
      {
        ParseNext(data, cursor);
        var payloadLength := FromLe(data[cursor..cursor + 4]);
        if payloadLength < HEADER || cursor + 4 + payloadLength > |data| {
          assert records + [] == records;
          return;
        }
        Regroup(records, [Head(data[cursor..])], Parse(data[cursor + 4 + payloadLength..]));
        records := records + [Head(data[cursor..])];
        cursor := cursor + 4 + payloadLength;
      }
      ParseShort(data[cursor..]);
      assert records + [] == records;
    }

    /** Reads the log back: all records, in order. */
    method ReadAll() returns (records: seq<Entry>)
      requires Valid()
      ensures records == entries
    {
      records := ReadFile(file);
      ReadsBack(entries);
    }
  }
}
