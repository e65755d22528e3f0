/** Pages: a fixed-size buffer of records behind a header with a checksum. */
module Pages {
  import opened LittleEndian
  import opened Collections
  import opened Checksum

  const PAGE_HEADER_SIZE: nat := 11
  const RECORD_HEADER_SIZE: nat := 12

  datatype PageRecord = PageRecord(recordId: nat, version: nat, payload: Bytes)

  datatype Outcome<T> = Done(value: T) | PageFull | OutOfRange | Corrupt | WrongSize

  // ---------------------------------------------------------------------
  // Layout
  // ---------------------------------------------------------------------

  predicate RecordFits(r: PageRecord) {
    r.recordId < Limit(4) && |r.payload| < Limit(4) && r.version < Limit(4)
  }

  function RecordBytes(r: PageRecord): (b: Bytes)
    ensures |b| == RECORD_HEADER_SIZE + |r.payload|
  {
    Le(r.recordId, 4) + Le(|r.payload|, 4) + Le(r.version, 4) + r.payload
  }

  function Area(records: seq<PageRecord>): Bytes {
    if records == [] then [] else Area(records[..|records| - 1]) + RecordBytes(records[|records| - 1])
  }

  /** The bytes of a buffer with some of them replaced. */
  function Splice(s: Bytes, offset: nat, x: Bytes): (t: Bytes)
    requires offset + |x| <= |s|
    ensures |t| == |s|
  {
    s[..offset] + x + s[offset + |x|..]
  }

  /** The buffer spells out the page: identity, record count, and the records one after another. */
  ghost predicate Spells(b: Bytes, pageId: nat, records: seq<PageRecord>) {
    && |b| >= PAGE_HEADER_SIZE + |Area(records)|
    && pageId < Limit(4) && |records| < Limit(2) && (forall i :: 0 <= i < |records| ==> RecordFits(records[i]))
    && b[0..4] == Le(pageId, 4) && b[9..11] == Le(|records|, 2)
    && b[11..11 + |Area(records)|] == Area(records)
  }

  lemma SpliceAt(s: Bytes, offset: nat, x: Bytes, i: nat, j: nat)
    requires offset + |x| <= |s| && i <= j <= |s|
    ensures j <= offset || offset + |x| <= i ==> Splice(s, offset, x)[i..j] == s[i..j]
    ensures i == offset && j == offset + |x| ==> Splice(s, offset, x)[i..j] == x
  {
    var t := Splice(s, offset, x);
    assert forall k :: 0 <= k < |s| ==> t[k] == if offset <= k < offset + |x| then x[k - offset] else s[k];
  }

  lemma {:induction false} AreaPrefix(records: seq<PageRecord>, i: nat)
    requires i <= |records|
    ensures |Area(records[..i])| <= |Area(records)| && Area(records)[..|Area(records[..i])|] == Area(records[..i])
  {
    hide RecordBytes;
    if i == |records| {
      assert records[..i] == records;
    } else {
      var n := |records| - 1;
      AreaPrefix(records[..n], i);
      assert records[..n][..i] == records[..i];
    }
  }

  lemma AreaNext(records: seq<PageRecord>, i: nat)
    requires i < |records|
    ensures Area(records[..i + 1]) == Area(records[..i]) + RecordBytes(records[i])
  {
    assert records[..i + 1][..i] == records[..i];
  }

  /** Where the fields of a record lie. */
  lemma RecordFields(r: PageRecord)
    ensures var b := RecordBytes(r);
            b[0..4] == Le(r.recordId, 4) && b[4..8] == Le(|r.payload|, 4) && b[8..12] == Le(r.version, 4) &&
            b[12..] == r.payload
  {
    hide Le;
    Words(Le(r.recordId, 4), Le(|r.payload|, 4), Le(r.version, 4), r.payload);
  }

  lemma Words(a: Bytes, b: Bytes, c: Bytes, d: Bytes)
    requires |a| == |b| == |c| == 4
    ensures (a + b + c + d)[0..4] == a && (a + b + c + d)[4..8] == b && (a + b + c + d)[8..12] == c
    ensures (a + b + c + d)[12..] == d
  {
  }

  /** Where record `i` starts. */
  function Offset(records: seq<PageRecord>, i: nat): nat
    requires i <= |records|
  {
    PAGE_HEADER_SIZE + |Area(records[..i])|
  }

  lemma FirstOffset(records: seq<PageRecord>)
    ensures Offset(records, 0) == PAGE_HEADER_SIZE
  {
  }

  /** The bytes of record `i` in a buffer. */
  lemma RecordInBuffer(b: Bytes, pageId: nat, records: seq<PageRecord>, i: nat)
    requires Spells(b, pageId, records) && i < |records|
    ensures var o := Offset(records, i); var n := |RecordBytes(records[i])|;
            && o + n == Offset(records, i + 1) <= |b|
            && b[o..o + n] == RecordBytes(records[i])
  {
    hide RecordBytes, RecordFits;
    AreaPrefix(records, i);
    AreaPrefix(records, i + 1);
    AreaNext(records, i);
    hide Area;
    var area := b[11..11 + |Area(records)|];
    var m, n := |Area(records[..i])|, |RecordBytes(records[i])|;
    Suffix(Area(records)[..m + n], m, RecordBytes(records[i]), Area(records[..i]));
    Sub(b, 11, 11 + |Area(records)|, m, m + n);
    Sub(Area(records), 0, m + n, m, m + n);
    assert Area(records)[0..m + n] == Area(records)[..m + n];
  }

  lemma Suffix(s: Bytes, m: nat, x: Bytes, y: Bytes)
    requires s == y + x && m == |y|
    ensures s[m..m + |x|] == x
  {
  }

  lemma Sub(b: Bytes, lo: nat, hi: nat, i: nat, j: nat)
    requires lo <= hi <= |b| && i <= j <= hi - lo
    ensures b[lo..hi][i..j] == b[lo + i..lo + j]
  {
    var s, t := b[lo..hi][i..j], b[lo + i..lo + j];
    assert |s| == |t|;
    forall k | 0 <= k < |s|
      ensures s[k] == t[k]
    {
      assert s[k] == b[lo..hi][i + k] == b[lo + i + k];
    }
  }

  lemma RecordSlices(b: Bytes, o: nat, r: PageRecord)
    requires o + 12 + |r.payload| <= |b| && b[o..o + 12 + |r.payload|] == RecordBytes(r)
    ensures b[o..o + 4] == Le(r.recordId, 4) && b[o + 4..o + 8] == Le(|r.payload|, 4)
    ensures b[o + 8..o + 12] == Le(r.version, 4)
    ensures b[o + 12..o + 12 + |r.payload|] == r.payload
  {
    RecordFields(r);
    hide Le, RecordBytes;
    var n := 12 + |r.payload|;
    Sub(b, o, o + n, 0, 4);
    Sub(b, o, o + n, 4, 8);
    Sub(b, o, o + n, 8, 12);
    Sub(b, o, o + n, 12, n);
    assert RecordBytes(r)[12..n] == RecordBytes(r)[12..];
  }

  lemma NumbersOf(r: PageRecord)
    requires RecordFits(r)
    ensures FromLe(Le(r.recordId, 4)) == r.recordId && FromLe(Le(|r.payload|, 4)) == |r.payload|
    ensures FromLe(Le(r.version, 4)) == r.version
  {
    LeRoundTrip(r.recordId, 4);
    LeRoundTrip(|r.payload|, 4);
    LeRoundTrip(r.version, 4);
  }

  /** Reading the header of record `i`, and its payload, out of a buffer. */
  lemma ReadsRecord(b: Bytes, pageId: nat, records: seq<PageRecord>, i: nat)
    requires Spells(b, pageId, records) && i < |records|
    ensures var o, r := Offset(records, i), records[i];
            && o + 12 + |r.payload| == Offset(records, i + 1) <= |b|
            && FromLe(b[o..o + 4]) == r.recordId && FromLe(b[o + 4..o + 8]) == |r.payload| &&
               FromLe(b[o + 8..o + 12]) == r.version
            && b[o + 12..o + 12 + |r.payload|] == r.payload
  {
    RecordInBuffer(b, pageId, records, i);
    assert RecordFits(records[i]);
    hide Spells, Le, FromLe, Limit, Offset;
    NumbersOf(records[i]);
    RecordSlices(b, Offset(records, i), records[i]);
  }

  lemma ReadsHeader(b: Bytes, pageId: nat, records: seq<PageRecord>)
    requires Spells(b, pageId, records)
    ensures FromLe(b[0..4]) == pageId && FromLe(b[9..11]) == |records|
    ensures Offset(records, 0) == PAGE_HEADER_SIZE && Offset(records, |records|) == PAGE_HEADER_SIZE + |Area(records)|
  {
    LeRoundTrip(pageId, 4);
    LeRoundTrip(|records|, 2);
    assert records[..0] == [] && records[..|records|] == records;
  }

  // ---------------------------------------------------------------------
  // Checksums
  // ---------------------------------------------------------------------

  /** The four bytes of a checksum. */
  function Word(c: bv32): (b: Bytes)
    ensures |b| == 4
  {
    [(c & 0xff) as bv8, ((c >> 8) & 0xff) as bv8, ((c >> 16) & 0xff) as bv8, ((c >> 24) & 0xff) as bv8]
  }

  lemma WordInjective(c: bv32, d: bv32)
    ensures Word(c) == Word(d) ==> c == d
  {
    if Word(c) == Word(d) {
      assert Word(c)[0] == Word(d)[0] && Word(c)[1] == Word(d)[1] && Word(c)[2] == Word(d)[2] &&
             Word(c)[3] == Word(d)[3];
    }
  }

  /** The checksum of a page image, over everything but the checksum field. */
  function ImageChecksum(image: Bytes): bv32 {
    Xor(Crc(0xffff_ffff, Outside(image, 4, 8)), 0xffff_ffff)
  }

  predicate Sealed(image: Bytes) {
    |image| >= PAGE_HEADER_SIZE && image[4..8] == Word(ImageChecksum(image))
  }

  /** A checksum of zero and no records: a page that was never written. */
  predicate Blank(image: Bytes)
    requires |image| >= PAGE_HEADER_SIZE
  {
    image[4..8] == [0, 0, 0, 0] && image[9..11] == [0, 0]
  }

  lemma FreshImage(n: nat, id: Bytes)
    requires n >= PAGE_HEADER_SIZE && |id| == 4
    ensures Splice(Splice(seq(n, _ => 0), 0, id), 9, [0, 0]) == id + seq(n - 4, _ => 0)
  {
    var b: Bytes, c: Bytes := Splice(seq(n, _ => 0), 0, id), id + seq(n - 4, _ => 0);
    assert b == c;
    assert forall k :: 0 <= k < n ==> Splice(b, 9, [0, 0])[k] == c[k];
  }

  lemma TwoZeros()
    ensures Le(0, 2) == [0, 0]
  {
    assert Le(0, 2) == [ByteOf(0)] + Le(0, 1) && Le(0, 1) == [ByteOf(0)] + Le(0, 0);
  }

  /** A page of zeros, as the file system leaves in a gap, reads as blank. */
  lemma ZerosAreBlank(n: nat)
    requires n >= PAGE_HEADER_SIZE
    ensures Blank(seq(n, _ => 0))
  {
    var image: Bytes := seq(n, _ => 0);
    assert image[4..8] == [0, 0, 0, 0] && image[9..11] == [0, 0];
  }

  /** No page with records reads as blank. */
  lemma BlankIsEmpty(image: Bytes, pageId: nat, records: seq<PageRecord>)
    requires Spells(image, pageId, records) && |image| >= PAGE_HEADER_SIZE && Blank(image)
    ensures records == []
  {
    ReadsHeader(image, pageId, records);
    hide Spells;
    assert FromLe([0, 0]) == 0 by {
      assert [0 as Byte, 0][1..] == [0];
      assert [0 as Byte][1..] == [];
    }
  }

  predicate Accepted(image: Bytes)
    requires |image| >= PAGE_HEADER_SIZE
  {
    Blank(image) || Sealed(image)
  }

  lemma {:induction false} OutsideSplit(image: Bytes)
    requires |image| >= 8
    ensures Outside(image, 4, 8) == image[..4] + image[8..]
  {
    var n := |image| - 1;
    if n == 7 {
      var a := image[..7];
      assert a[..6][..5][..4] == image[..4];
      OutsideFirst(image[..4]);
      assert Outside(a[..6][..5], 4, 8) == Outside(a[..6][..5][..4], 4, 8) + [];
      assert Outside(a[..6], 4, 8) == Outside(a[..6][..5], 4, 8) + [];
      assert Outside(a, 4, 8) == Outside(a[..6], 4, 8) + [];
      assert Outside(image, 4, 8) == Outside(a, 4, 8) + [];
    } else {
      OutsideSplit(image[..n]);
      assert image[..n][..4] == image[..4];
      assert image[8..] == image[..n][8..] + [image[n]];
    }
  }

  lemma {:induction false} OutsideFirst(b: Bytes)
    requires |b| <= 4
    ensures Outside(b, 4, 8) == b
  {
    if b != [] {
      OutsideFirst(b[..|b| - 1]);
      assert b == b[..|b| - 1] + [b[|b| - 1]];
    }
  }

  /** Changing one byte outside the checksum field changes the checksum. */
  lemma OneByteChangesChecksum(image: Bytes, i: nat, v: Byte)
    requires PAGE_HEADER_SIZE <= |image| && i < |image| && !(4 <= i < 8) && v != image[i]
    ensures ImageChecksum(image[i := v]) != ImageChecksum(image)
  {
    OutsideSplit(image);
    OutsideSplit(image[i := v]);
    var rest := image[..4] + image[8..];
    var k := if i < 4 then i else i - 4;
    assert image[i := v][..4] + image[i := v][8..] == rest[k := v];
    OneByteMatters(0xffff_ffff, rest, k, v);
    XorCancels(Crc(0xffff_ffff, rest[k := v]), Crc(0xffff_ffff, rest), 0xffff_ffff);
  }

  /** Changing a byte of the checksum field leaves the checksum of the rest. */
  lemma ChecksumIgnoresItself(image: Bytes, x: Bytes)
    requires |image| >= 8 && |x| == 4
    ensures ImageChecksum(Splice(image, 4, x)) == ImageChecksum(image)
  {
    OutsideSplit(image);
    OutsideSplit(Splice(image, 4, x));
    hide Crc, Outside;
    assert Splice(image, 4, x)[..4] == image[..4] && Splice(image, 4, x)[8..] == image[8..];
  }

  /**
    * Of a sealed image of any size with exactly one byte changed, `deserialize` accepts precisely
    * what reads as blank.
    */
  lemma OneByteIsCaught(image: Bytes, i: nat, v: Byte)
    requires Sealed(image) && i < |image| && v != image[i]
    ensures Accepted(image[i := v]) <==> Blank(image[i := v])
  {
    var changed := image[i := v];
    hide ImageChecksum, Blank;
    if 4 <= i < 8 {
      ChecksumIgnoresItself(image, changed[4..8]);
      assert Splice(image, 4, changed[4..8]) == changed;
      assert changed[4..8][i - 4] == v != image[4..8][i - 4];
    } else {
      OneByteChangesChecksum(image, i, v);
      hide Word;
      assert changed[4..8] == image[4..8];
      WordInjective(ImageChecksum(changed), ImageChecksum(image));
    }
  }

  // ---------------------------------------------------------------------
  // Writing records
  // ---------------------------------------------------------------------

  /** Splices outside a range leave what the range says. */
  lemma HeaderSplices(b: Bytes, count: Bytes, dirty: Byte)
    requires |b| >= PAGE_HEADER_SIZE && |count| == 2
    ensures var c := Splice(Splice(b, 9, count), 8, [dirty]);
            c[0..4] == b[0..4] && c[9..11] == count && forall j :: 11 <= j <= |b| ==> c[11..j] == b[11..j]
  {
    var b1 := Splice(b, 9, count);
    SpliceAt(b, 9, count, 0, 4);
    SpliceAt(b, 9, count, 9, 11);
    SpliceAt(b1, 8, [dirty], 0, 4);
    SpliceAt(b1, 8, [dirty], 9, 11);
    forall j | 11 <= j <= |b|
      ensures Splice(b1, 8, [dirty])[11..j] == b[11..j]
    {
      SpliceAt(b, 9, count, 11, j);
      SpliceAt(b1, 8, [dirty], 11, j);
    }
  }

  /** Writing a record behind the last one extends the record area. */
  lemma AreaGrows(b: Bytes, records: seq<PageRecord>, r: PageRecord)
    requires PAGE_HEADER_SIZE + |Area(records)| + |RecordBytes(r)| <= |b|
    requires b[11..11 + |Area(records)|] == Area(records)
    ensures var c, end := Splice(b, 11 + |Area(records)|, RecordBytes(r)), 11 + |Area(records + [r])|;
            end == 11 + |Area(records)| + |RecordBytes(r)| && c[0..4] == b[0..4] && c[11..end] == Area(records + [r])
  {
    hide RecordBytes;
    var mid := 11 + |Area(records)|;
    var end := mid + |RecordBytes(r)|;
    assert (records + [r])[..|records|] == records;
    var c := Splice(b, mid, RecordBytes(r));
    SpliceAt(b, mid, RecordBytes(r), 0, 4);
    SpliceAt(b, mid, RecordBytes(r), 11, mid);
    SpliceAt(b, mid, RecordBytes(r), mid, end);
    assert c[11..end] == c[11..mid] + c[mid..end];
  }

  /** The buffer after a record has been written behind the last one, counted, and the page marked dirty. */
  function Inserted(b: Bytes, records: seq<PageRecord>, r: PageRecord): Bytes
    requires PAGE_HEADER_SIZE + |Area(records)| + |RecordBytes(r)| <= |b|
  {
    Splice(Splice(Splice(b, 11 + |Area(records)|, RecordBytes(r)), 9, Le(|records| + 1, 2)), 8, [1])
  }

  lemma InsertedSpells(b: Bytes, pageId: nat, records: seq<PageRecord>, r: PageRecord)
    requires Spells(b, pageId, records) && RecordFits(r) && |records| + 1 < Limit(2)
    requires PAGE_HEADER_SIZE + |Area(records)| + |RecordBytes(r)| <= |b|
    ensures Spells(Inserted(b, records, r), pageId, records + [r])
  {
    AreaGrows(b, records, r);
    HeaderSplices(Splice(b, 11 + |Area(records)|, RecordBytes(r)), Le(|records| + 1, 2), 1);
    hide Area, Splice, Le, RecordBytes, RecordFits;
  }

  /** What has been written of a record when a field that is out of range stops the writing. */
  function Written(r: PageRecord): (b: Bytes)
    ensures |b| <= RECORD_HEADER_SIZE + |r.payload|
    ensures RecordFits(r) ==> b == RecordBytes(r)
  {
    if r.recordId >= Limit(4) then []
    else if |r.payload| >= Limit(4) then Le(r.recordId, 4)
    else if r.version >= Limit(4) then Le(r.recordId, 4) + Le(|r.payload|, 4)
    else RecordBytes(r)
  }

  lemma SpliceTwice(b: Bytes, o: nat, x: Bytes, y: Bytes)
    requires o + |x| + |y| <= |b|
    ensures Splice(Splice(b, o, x), o + |x|, y) == Splice(b, o, x + y)
  {
  }

  lemma SpliceNothing(b: Bytes, o: nat)
    requires o <= |b|
    ensures Splice(b, o, []) == b
  {
  }

  /** Bytes behind the last record are not part of what a page spells. */
  lemma SpliceBehind(b: Bytes, pageId: nat, records: seq<PageRecord>, offset: nat, x: Bytes)
    requires Spells(b, pageId, records) && PAGE_HEADER_SIZE + |Area(records)| <= offset && offset + |x| <= |b|
    ensures Spells(Splice(b, offset, x), pageId, records)
  {
    hide Area, Le, RecordFits, Splice;
    SpliceAt(b, offset, x, 0, 4);
    SpliceAt(b, offset, x, 9, 11);
    SpliceAt(b, offset, x, 11, 11 + |Area(records)|);
  }

  /** The position of the first record with a field out of range, or the length of the list. */
  function FirstUnfit(list: seq<PageRecord>): (k: nat)
    ensures k <= |list| && (k < |list| ==> !RecordFits(list[k]))
    ensures forall i :: 0 <= i < k ==> RecordFits(list[i])
  {
    if list == [] || !RecordFits(list[0]) then 0 else 1 + FirstUnfit(list[1..])
  }

  /** Whether records can be written to a page, and why not. */
  function RewriteResult(list: seq<PageRecord>, pageSize: nat): Outcome<()> {
    if |Area(list)| > pageSize - PAGE_HEADER_SIZE then PageFull
    else if FirstUnfit(list) < |list| || |list| >= Limit(2) then OutOfRange
    else Done(())
  }

  /** What rewriting leaves in the record area, up to where it stops. */
  function WrittenArea(list: seq<PageRecord>): (b: Bytes)
  {
    var k := FirstUnfit(list);
    Area(list[..k]) + if k < |list| then Written(list[k]) else []
  }

  lemma WrittenAreaFits(list: seq<PageRecord>)
    ensures |WrittenArea(list)| <= |Area(list)|
    ensures FirstUnfit(list) == |list| ==> WrittenArea(list) == Area(list)
  {
    hide RecordFits, Written, RecordBytes;
    var k := FirstUnfit(list);
    if k < |list| {
      AreaPrefix(list, k + 1);
      AreaNext(list, k);
    } else {
      assert list[..k] == list;
    }
  }

  lemma RewrittenSpells(b: Bytes, pageId: nat, list: seq<PageRecord>)
    requires |b| >= PAGE_HEADER_SIZE + |Area(list)| && pageId < Limit(4) && |list| < Limit(2)
    requires forall i :: 0 <= i < |list| ==> RecordFits(list[i])
    requires b[0..4] == Le(pageId, 4) && b[11..11 + |Area(list)|] == Area(list)
    ensures Spells(Splice(Splice(b, 9, Le(|list|, 2)), 8, [1]), pageId, list)
  {
    HeaderSplices(b, Le(|list|, 2), 1);
    hide Area, Splice, Le, RecordFits;
  }

  lemma SpellsParts(b: Bytes, pageId: nat, records: seq<PageRecord>)
    requires Spells(b, pageId, records)
    ensures |b| >= PAGE_HEADER_SIZE + |Area(records)| && b[0..4] == Le(pageId, 4) && pageId < Limit(4)
  {
  }

  /** The sum of the space that records need. */
  function Required(records: seq<PageRecord>): nat {
    if records == [] then 0
    else Required(records[..|records| - 1]) + RECORD_HEADER_SIZE + |records[|records| - 1].payload|
  }

  lemma {:induction false} RequiredIsArea(records: seq<PageRecord>)
    ensures Required(records) == |Area(records)|
  {
    if records != [] {
      RequiredIsArea(records[..|records| - 1]);
    }
  }

  /** Copies bytes into a buffer. */
  method Store(buffer: array<Byte>, offset: nat, x: Bytes)
    requires offset + |x| <= buffer.Length
    modifies buffer
    ensures buffer[..] == Splice(old(buffer[..]), offset, x)
  {
    for i := 0 to |x|
      invariant forall k :: 0 <= k < buffer.Length ==>
                  buffer[k] == if offset <= k < offset + i then x[k - offset] else old(buffer[k])
    {
      buffer[offset + i] := x[i];
    }
  }

  class Page {
    const pageSize: nat
    const buffer: array<Byte>
    ghost const pageId: nat
    /** The records on the page, in order. */
    ghost var records: seq<PageRecord>

    ghost predicate Valid()
      reads this, buffer
    {
      buffer.Length == pageSize && Spells(buffer[..], pageId, records)
    }

    /** A page with no records. */
    constructor (pageId: nat, pageSize: nat)
      requires pageId < Limit(4) && pageSize >= PAGE_HEADER_SIZE
      ensures Valid() && fresh(buffer) && records == [] && this.pageId == pageId && this.pageSize == pageSize
      ensures buffer[..] == Le(pageId, 4) + seq(pageSize - 4, _ => 0)
    {
      this.pageSize, this.pageId, records := pageSize, pageId, [];
      buffer := new Byte[pageSize](_ => 0);
      new;
      assert buffer[..] == seq(pageSize, _ => 0);
      Store(buffer, 0, Le(pageId, 4));
      ghost var b := buffer[..];
      SpliceAt(b, 9, Le(0, 2), 0, 4);
      SpliceAt(b, 9, Le(0, 2), 9, 11);
      TwoZeros();
      Store(buffer, 9, Le(0, 2));
      Limits();
      FreshImage(pageSize, Le(pageId, 4));
    }

    /** A page over an existing image. */
    constructor FromImage(image: Bytes, ghost pageId: nat, ghost records: seq<PageRecord>)
      requires Spells(image, pageId, records)
      ensures Valid() && fresh(buffer) && buffer[..] == image && this.pageId == pageId && this.records == records
    {
      pageSize, this.pageId, this.records := |image|, pageId, records;
      buffer := new Byte[|image|](i requires 0 <= i < |image| => image[i]);
      new;
      assert buffer[..] == image;
    }

    method RecordCount() returns (count: nat)
      requires Valid()
      ensures count == |records|
    {
      ReadsHeader(buffer[..], pageId, records);
      count := FromLe(buffer[9..11]);
    }

    /** The record at an offset of the walk. */
    method RecordAt(offset: nat, ghost i: nat) returns (r: PageRecord)
      requires Valid() && i < |records| && offset == Offset(records, i)
      ensures r == records[i] && offset + RECORD_HEADER_SIZE + |r.payload| == Offset(records, i + 1) <= pageSize
    {
      ReadsRecord(buffer[..], pageId, records, i);
      hide Spells, Area, FromLe, Offset;
      BufferSlices(buffer, offset, 12 + |records[i].payload|);
      var length := FromLe(buffer[offset + 4..offset + 8]);
      r := PageRecord(FromLe(buffer[offset..offset + 4]), FromLe(buffer[offset + 8..offset + 12]),
                      buffer[offset + 12..offset + 12 + length]);
    }

    /** Walks the records and returns where the next one would start. */
    method EndOffset() returns (offset: nat)
      requires Valid()
      ensures offset == PAGE_HEADER_SIZE + |Area(records)| <= pageSize
    {
      ReadsHeader(buffer[..], pageId, records);
      AreaIsInside(buffer[..], pageId, records);
      var count := RecordCount();
      hide Spells, Area, Offset;
      offset := PAGE_HEADER_SIZE;
      for i := 0 to count
        invariant offset == Offset(records, i)
      {
        var record := RecordAt(offset, i);
        offset := offset + RECORD_HEADER_SIZE + |record.payload|;
      }
    }

    /** Writes the fields of a record one after another, up to one that is out of range. */
    method StoreRecord(offset: nat, record: PageRecord) returns (ok: bool)
      requires offset + RECORD_HEADER_SIZE + |record.payload| <= buffer.Length
      modifies buffer
      ensures ok == RecordFits(record) && buffer[..] == Splice(old(buffer[..]), offset, Written(record))
    {
      hide Le, Splice, Limit;
      ghost var b := buffer[..];
      SpliceNothing(b, offset);
      if record.recordId >= Limit(4) {
        return false;
      }
      Store(buffer, offset, Le(record.recordId, 4));
      if |record.payload| >= Limit(4) {
        return false;
      }
      Store(buffer, offset + 4, Le(|record.payload|, 4));
      SpliceTwice(b, offset, Le(record.recordId, 4), Le(|record.payload|, 4));
      if record.version >= Limit(4) {
        return false;
      }
      Store(buffer, offset + 8, Le(record.version, 4));
      SpliceTwice(b, offset, Le(record.recordId, 4) + Le(|record.payload|, 4), Le(record.version, 4));
      Store(buffer, offset + 12, record.payload);
      SpliceTwice(b, offset, Le(record.recordId, 4) + Le(|record.payload|, 4) + Le(record.version, 4), record.payload);
      ok := true;
    }

    /** Appends a record. A field out of range leaves garbage behind the last record, and the page as it was. */
    method InsertRecord(recordId: nat, payload: Bytes, version: nat) returns (r: Outcome<nat>)
      requires Valid()
      modifies this, buffer
      ensures Valid()
      ensures var record := PageRecord(recordId, version, payload);
              r == if RECORD_HEADER_SIZE + |payload| > pageSize - PAGE_HEADER_SIZE - |old(Area(records))| then PageFull
                   else if !RecordFits(record) || |old(records)| + 1 >= Limit(2) then OutOfRange
                   else Done(recordId)
      ensures records == old(records) + if r.Done? then [PageRecord(recordId, version, payload)] else []
      ensures r.PageFull? ==> buffer[..] == old(buffer[..])
    {
      hide Spells, Area, Splice, Le, RecordFits, Limit, Written, RecordBytes;
      var offset := EndOffset();
      var needed := RECORD_HEADER_SIZE + |payload|;
      if needed > pageSize - offset {
        return PageFull;
      }
      var count := RecordCount();
      var record := PageRecord(recordId, version, payload);
      SpliceBehind(buffer[..], pageId, records, offset, Written(record));
      if RecordFits(record) && |records| + 1 < Limit(2) {
        InsertedSpells(buffer[..], pageId, records, record);
      }
      var ok := StoreRecord(offset, record);
      if !ok || count + 1 >= Limit(2) {
        return OutOfRange;
      }
      Store(buffer, 9, Le(count + 1, 2));
      Store(buffer, 8, [1]);
      records := records + [record];
      r := Done(recordId);
    }

    /** Every record, in order. */
    method ListRecords() returns (list: seq<PageRecord>)
      requires Valid()
      ensures list == records
    {
      hide Spells, Area, Offset;
      ReadsHeader(buffer[..], pageId, records);
      var count := RecordCount();
      list := [];
      var offset := PAGE_HEADER_SIZE;
      for i := 0 to count
        invariant offset == Offset(records, i) && list == records[..i]
      {
        var record := RecordAt(offset, i);
        assert records[..i + 1] == records[..i] + [record];
        list := list + [record];
        offset := offset + RECORD_HEADER_SIZE + |record.payload|;
      }
    }

    /** The first record with an identity. */
    method ReadRecord(recordId: nat) returns (found: Option<PageRecord>)
      requires Valid()
      ensures found.None? ==> forall k :: 0 <= k < |records| ==> records[k].recordId != recordId
      ensures found.Some? ==>
                exists i :: 0 <= i < |records| && records[i] == found.value && found.value.recordId == recordId
                            && forall k :: 0 <= k < i ==> records[k].recordId != recordId
    {
      hide Spells, Area, Offset, Le, FromLe, Limit;
      var count := RecordCount();
      FirstOffset(records);
      var offset := PAGE_HEADER_SIZE;
      for i := 0 to count
        invariant offset == Offset(records, i) && forall k :: 0 <= k < i ==> records[k].recordId != recordId
      {
        var record := RecordAt(offset, i);
        if record.recordId == recordId {
          return Some(record);
        }
        offset := offset + RECORD_HEADER_SIZE + |record.payload|;
      }
      found := None;
    }

    /** Replaces all records of the page. A field out of range, or too many records, leave the area half rewritten. */
    method RewriteRecords(list: seq<PageRecord>) returns (r: Outcome<()>)
      requires Valid()
      modifies this, buffer
      ensures r == RewriteResult(list, pageSize)
      ensures !r.OutOfRange? ==> Valid()
      ensures r.Done? ==> records == list
      ensures r.PageFull? ==> records == old(records) && buffer[..] == old(buffer[..])
      ensures r.OutOfRange? ==>
                && PAGE_HEADER_SIZE + |WrittenArea(list)| <= buffer.Length == pageSize
                && buffer[..][..11] == old(buffer[..])[..11]
                && buffer[..][11..11 + |WrittenArea(list)|] == WrittenArea(list)
                && forall k :: 11 + |WrittenArea(list)| <= k < pageSize ==> buffer[k] == 0
    {
      hide Splice, Le, Limit, RecordFits, WrittenArea, Area, RecordBytes;
      var required := 0;
      for i := 0 to |list|
        invariant required == Required(list[..i])
      {
        assert list[..i + 1][..i] == list[..i];
        required := required + RECORD_HEADER_SIZE + |list[i].payload|;
      }
      assert list[..|list|] == list;
      RequiredIsArea(list);
      WrittenAreaFits(list);
      if required > pageSize - PAGE_HEADER_SIZE {
        return PageFull;
      }
      SpellsParts(buffer[..], pageId, records);
      var ok := WriteAll(list);
      hide Spells;
      if !ok || |list| >= Limit(2) {
        return OutOfRange;
      }
      assert buffer[..][0..4] == buffer[..][..11][0..4];
      RewrittenSpells(buffer[..], pageId, list);
      Store(buffer, 9, Le(|list|, 2));
      Store(buffer, 8, [1]);
      records := list;
      r := Done(());
    }

    /** Clears the record area and writes records from its start, up to the first field out of range. */
    method WriteAll(list: seq<PageRecord>) returns (ok: bool)
      requires buffer.Length == pageSize >= PAGE_HEADER_SIZE + |Area(list)|
      modifies buffer
      ensures ok == (FirstUnfit(list) == |list|)
      ensures PAGE_HEADER_SIZE + |WrittenArea(list)| <= pageSize && buffer[..][..11] == old(buffer[..])[..11]
      ensures buffer[..][11..11 + |WrittenArea(list)|] == WrittenArea(list)
      ensures forall k :: 11 + |WrittenArea(list)| <= k < pageSize ==> buffer[k] == 0
    {
      WrittenAreaFits(list);
      hide RecordBytes, Area, Splice, Written, RecordFits, WrittenArea;
      ghost var b := buffer[..];
      ZeroedArea(b);
      NoArea(list);
      Store(buffer, PAGE_HEADER_SIZE, seq(pageSize - PAGE_HEADER_SIZE, _ => 0));
      assert buffer[..][11..11] == [];
      var offset := PAGE_HEADER_SIZE;
      for i := 0 to |list|
        invariant i <= FirstUnfit(list) && offset == Offset(list, i) <= pageSize
        invariant buffer[..][..11] == b[..11] && buffer[..][11..offset] == Area(list[..i])
        invariant forall k :: offset <= k < pageSize ==> buffer[k] == 0
      {
        OffsetNext(list, i);
        WriteNext(buffer[..], list, i);
        WrittenSoFar(list, i);
        ok := StoreRecord(offset, list[i]);
        if !ok {
          return;
        }
        offset := offset + RECORD_HEADER_SIZE + |list[i].payload|;
      }
      WrittenAll(list);
      ok := true;
    }

    /** The on-disk image: a copy with a clear dirty flag and a fresh checksum. */
    method Serialize(table: seq<bv32>) returns (image: Bytes)
      requires Valid() && |table| == 256 && forall i :: 0 <= i < 256 ==> table[i] == BitSteps(i as bv32, 8)
      ensures Sealed(image) && |image| == pageSize && Spells(image, pageId, records) && image[8] == 0
    {
      var clean := Splice(buffer[..], 8, [0]);
      var checksum := Crc32(table, clean, 4, 8);
      image := Splice(clean, 4, Word(checksum));
      ChecksumIgnoresItself(clean, Word(checksum));
      SpliceAt(clean, 4, Word(checksum), 4, 8);
      SealedSpells(buffer[..], pageId, records, Word(checksum));
    }
  }

  lemma OffsetNext(list: seq<PageRecord>, i: nat)
    requires i < |list|
    ensures Offset(list, i) + |RecordBytes(list[i])| == Offset(list, i + 1) <= PAGE_HEADER_SIZE + |Area(list)|
    ensures list[..i] + [list[i]] == list[..i + 1]
  {
    AreaPrefix(list, i + 1);
    AreaNext(list, i);
    hide RecordBytes, Area;
  }

  lemma NoArea(list: seq<PageRecord>)
    ensures Offset(list, 0) == PAGE_HEADER_SIZE && Area(list[..0]) == []
  {
    assert list[..0] == [];
  }

  lemma ZeroedArea(b: Bytes)
    requires |b| >= PAGE_HEADER_SIZE
    ensures var c := Splice(b, PAGE_HEADER_SIZE, seq(|b| - PAGE_HEADER_SIZE, _ => 0));
            c[..11] == b[..11] && forall k :: 11 <= k < |b| ==> c[k] == 0
  {
  }

  /** Where writing stops at a record with a field out of range. */
  lemma WrittenSoFar(list: seq<PageRecord>, i: nat)
    requires i < |list| && i <= FirstUnfit(list)
    ensures i == FirstUnfit(list) <==> !RecordFits(list[i])
    ensures i == FirstUnfit(list) ==> WrittenArea(list) == Area(list[..i]) + Written(list[i])
  {
    hide RecordFits, Area, Written;
  }

  lemma WrittenAll(list: seq<PageRecord>)
    requires FirstUnfit(list) == |list|
    ensures WrittenArea(list) == Area(list[..|list|]) && |WrittenArea(list)| == Offset(list, |list|) - 11
  {
    hide RecordFits, Area, Written;
  }

  /** One turn of the writing loop, whether the record is written whole or not. */
  lemma SpliceExtends(b: Bytes, o: nat, x: Bytes)
    requires 11 <= o && o + |x| <= |b|
    ensures var c := Splice(b, o, x);
            && c[..11] == b[..11] && c[11..o + |x|] == b[11..o] + x
            && forall k :: o + |x| <= k < |b| ==> c[k] == b[k]
  {
    var c := Splice(b, o, x);
    assert forall k :: 0 <= k < |b| ==> c[k] == if o <= k < o + |x| then x[k - o] else b[k];
    assert c[11..o + |x|] == c[11..o] + c[o..o + |x|];
    assert c[11..o] == b[11..o] && c[o..o + |x|] == x;
  }

  lemma WriteNext(b: Bytes, list: seq<PageRecord>, i: nat)
    requires i < |list| && Offset(list, i) + |RecordBytes(list[i])| <= |b|
    requires b[11..Offset(list, i)] == Area(list[..i])
    ensures var o, x := Offset(list, i), Written(list[i]);
            && Splice(b, o, x)[..11] == b[..11] && Splice(b, o, x)[11..o + |x|] == Area(list[..i]) + x
            && (RecordFits(list[i]) ==> Area(list[..i]) + x == Area(list[..i + 1]))
            && forall k :: o + |x| <= k < |b| ==> Splice(b, o, x)[k] == b[k]
  {
    hide RecordBytes, Area, RecordFits, Written, Splice;
    AreaNext(list, i);
    SpliceExtends(b, Offset(list, i), Written(list[i]));
  }

  lemma AreaIsInside(b: Bytes, pageId: nat, records: seq<PageRecord>)
    requires Spells(b, pageId, records)
    ensures PAGE_HEADER_SIZE + |Area(records)| <= |b|
  {
  }

  lemma BufferSlices(buffer: array<Byte>, o: nat, n: nat)
    requires 12 <= n && o + n <= buffer.Length
    ensures buffer[..][o..o + 4] == buffer[o..o + 4] && buffer[..][o + 4..o + 8] == buffer[o + 4..o + 8]
    ensures buffer[..][o + 8..o + 12] == buffer[o + 8..o + 12] && buffer[..][o + 12..o + n] == buffer[o + 12..o + n]
  {
  }

  /** Neither the dirty flag nor the checksum is part of what a page spells. */
  lemma SealedSpells(b: Bytes, pageId: nat, records: seq<PageRecord>, word: Bytes)
    requires Spells(b, pageId, records) && |word| == 4
    ensures Spells(Splice(Splice(b, 8, [0]), 4, word), pageId, records)
    ensures Splice(Splice(b, 8, [0]), 4, word)[8] == 0
  {
    var clean, end := Splice(b, 8, [0]), 11 + |Area(records)|;
    SpliceAt(b, 8, [0], 0, 4);
    SpliceAt(b, 8, [0], 9, 11);
    SpliceAt(b, 8, [0], 11, end);
    SpliceAt(clean, 4, word, 0, 4);
    SpliceAt(clean, 4, word, 9, 11);
    SpliceAt(clean, 4, word, 11, end);
  }

  /** Reconstructs the buffer of a page from an image, or refuses it. */
  method Deserialize(table: seq<bv32>, image: Bytes, pageSize: nat) returns (r: Outcome<Bytes>)
    requires |table| == 256 && forall i :: 0 <= i < 256 ==> table[i] == BitSteps(i as bv32, 8)
    requires pageSize >= PAGE_HEADER_SIZE
    ensures r == if |image| != pageSize then WrongSize else if Accepted(image) then Done(image) else Corrupt
  {
    hide Word, Xor, Crc, Outside;
    if |image| != pageSize {
      return WrongSize;
    }
    var stored := image[4..8];
    var isBlank := stored == [0, 0, 0, 0] && image[9..11] == [0, 0];
    if !isBlank {
      var actual := Crc32(table, image, 4, 8);
      if Word(actual) != stored {
        return Corrupt;
      }
    }
    r := Done(image);
  }

  /** Serializing a page, reading the image back and listing it gives the page's records. */
  method RoundTrip(table: seq<bv32>, page: Page) returns (list: seq<PageRecord>)
    requires page.Valid() && |table| == 256 && forall i :: 0 <= i < 256 ==> table[i] == BitSteps(i as bv32, 8)
    ensures list == page.records
  {
    var image := page.Serialize(table);
    var r := Deserialize(table, image, page.pageSize);
    var again := new Page.FromImage(r.value, page.pageId, page.records);
    list := again.ListRecords();
  }
}
