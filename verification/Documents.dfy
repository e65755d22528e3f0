/** Spreading the text of a document over pages, and reading it back. */
module Documents {
  import opened LittleEndian
  import opened Utf8
  import opened Pages

  const METADATA_RECORD_ID: nat := 0
  const CONTENT_RECORD_ID: nat := 1

  /** Bytes available for text on a page. */
  function ChunkCapacity(pageSize: nat, pageIndex: nat, metadataLength: nat): int {
    pageSize - PAGE_HEADER_SIZE -
    if pageIndex == 0 then RECORD_HEADER_SIZE + metadataLength + RECORD_HEADER_SIZE else RECORD_HEADER_SIZE
  }

  function Joined(pieces: seq<seq<Scalar>>): seq<Scalar> {
    if pieces == [] then [] else Joined(pieces[..|pieces| - 1]) + pieces[|pieces| - 1]
  }

  lemma JoinedNext(pieces: seq<seq<Scalar>>, piece: seq<Scalar>)
    ensures Joined(pieces + [piece]) == Joined(pieces) + piece
  {
    assert (pieces + [piece])[..|pieces|] == pieces;
  }

  lemma NothingJoined()
    ensures Joined([]) == []
  {
  }

  /** What follows a boundary is encoded by the bytes that follow it. */
  lemma RestAfter(text: seq<Scalar>, k: nat, offset: nat)
    requires k <= |text| && offset <= |Encode(text)| && Encode(text[..k]) == Encode(text)[..offset]
    ensures Encode(text) == Encode(text)[..offset] + Encode(text[k..]) && Encode(text[k..]) == Encode(text)[offset..]
  {
    assert text == text[..k] + text[k..];
    EncodeConcat(text[..k], text[k..]);
    hide Encode;
  }

  lemma Slices(b: Bytes, offset: nat, end: nat)
    requires offset <= end <= |b|
    ensures b[offset..][..end - offset] == b[offset..end] && b[..offset] + b[offset..end] == b[..end]
    ensures end < |b| ==> b[offset..][end - offset] == b[end]
  {
  }

  lemma BoundaryAfter(b: Bytes, offset: nat, end: nat)
    requires offset <= end <= |b| && IsBoundary(b, end)
    ensures IsBoundary(b[offset..], end - offset)
  {
    hide IsContinuation;
  }

  lemma TextSlices(text: seq<Scalar>, k: nat, j: nat)
    requires k + j <= |text|
    ensures text[k..][..j] == text[k..k + j] && text[..k + j] == text[..k] + text[k..k + j]
  {
  }

  /** The text between two boundaries is encoded by the bytes between them. */
  lemma Cut(text: seq<Scalar>, k: nat, offset: nat, end: nat) returns (m: nat)
    requires k <= |text| && offset <= end <= |Encode(text)| && Encode(text[..k]) == Encode(text)[..offset]
    requires IsBoundary(Encode(text), end)
    ensures k <= m <= |text| && Encode(text[..m]) == Encode(text)[..end]
    ensures Encode(text[k..m]) == Encode(text)[offset..end]
  {
    hide Encode, IsContinuation, IsBoundary;
    RestAfter(text, k, offset);
    BoundaryAfter(Encode(text), offset, end);
    Slices(Encode(text), offset, end);
    var j := BoundaryIsBetweenCharacters(text[k..], end - offset);
    m := k + j;
    TextSlices(text, k, j);
    EncodeConcat(text[..k], text[k..m]);
  }

  /** Where the character at a boundary ends there is a boundary too, at most four bytes on. */
  lemma NextBoundary(text: seq<Scalar>, k: nat, offset: nat) returns (next: nat)
    requires k < |text| && offset <= |Encode(text)| && Encode(text[..k]) == Encode(text)[..offset]
    ensures next == offset + |EncodeOne(text[k])| && next <= |Encode(text)| && IsBoundary(Encode(text), next)
  {
    hide Encode, EncodeOne, IsContinuation;
    next := offset + |EncodeOne(text[k])|;
    assert text[..k + 1] == text[..k] + [text[k]];
    EncodeConcat(text[..k], [text[k]]);
    EncodesOne(text[k]);
    StartsCharacter(text, k + 1);
  }

  /** Whole characters end at a boundary. */
  lemma StartsCharacter(text: seq<Scalar>, k: nat)
    requires k <= |text|
    ensures |Encode(text[..k])| <= |Encode(text)| && IsBoundary(Encode(text), |Encode(text[..k])|)
  {
    hide Encode, EncodeOne, IsContinuation;
    assert text == text[..k] + text[k..];
    EncodeConcat(text[..k], text[k..]);
    if k < |text| {
      Shape(text[k]);
      FirstByte(text[k..]);
    } else {
      NothingEncoded(text[k..]);
    }
  }

  lemma EncodesOne(n: Scalar)
    ensures Encode([n]) == EncodeOne(n)
  {
    hide EncodeOne;
    assert [n][1..] == [];
  }

  lemma FirstByte(text: seq<Scalar>)
    requires text != []
    ensures Encode(text) != [] && Encode(text)[0] == EncodeOne(text[0])[0]
  {
    hide EncodeOne;
  }

  lemma NothingEncoded(text: seq<Scalar>)
    ensures text == [] <==> Encode(text) == []
  {
    hide EncodeOne;
  }

  /** A piece of text and the character behind it take more than some number of bytes. */
  predicate NoRoomFor(piece: seq<Scalar>, next: Scalar, capacity: int) {
    |Encode(piece)| + |EncodeOne(next)| > capacity
  }

  /** No piece but the last could take one more character. */
  predicate Filled(pieces: seq<seq<Scalar>>, pageSize: nat, metadataLength: nat) {
    forall i :: 0 < i < |pieces| ==>
      pieces[i] != [] && NoRoomFor(pieces[i - 1], pieces[i][0], ChunkCapacity(pageSize, i - 1, metadataLength))
  }

  /** Every piece fits its page. */
  predicate PiecesFit(pieces: seq<seq<Scalar>>, pageSize: nat, metadataLength: nat) {
    forall i :: 0 <= i < |pieces| ==> |Encode(pieces[i])| <= ChunkCapacity(pageSize, i, metadataLength)
  }

  /**
    * Splits text into page-sized chunks of whole characters. With room for the metadata on the first page there is room
    * for any character on the later ones, so this ends, and the pieces the chunks encode make up the text. Each page
    * is filled as far as whole characters go.
    */
  method SplitIntoChunks(text: seq<Scalar>, pageSize: nat, metadataLength: nat)
    returns (chunks: seq<Bytes>, ghost pieces: seq<seq<Scalar>>)
    requires ChunkCapacity(pageSize, 0, metadataLength) >= 0
    ensures 1 <= |chunks| == |pieces| <= |Encode(text)| + 1 && Joined(pieces) == text
    ensures forall i :: 0 <= i < |chunks| ==> chunks[i] == Encode(pieces[i])
    ensures forall i :: 0 <= i < |chunks| ==> |chunks[i]| <= ChunkCapacity(pageSize, i, metadataLength)
    ensures Filled(pieces, pageSize, metadataLength)
  {
    hide Encode, IsContinuation, Filled, NoRoomFor, EncodeOne, Joined;
    var bytes := Encode(text);
    var offset, pageIndex := 0, 0;
    ghost var k := 0;
    chunks, pieces := [], [];
    NothingFilled(pageSize, metadataLength);
    NothingJoined();
    NothingEncoded(text[..0]);
    NothingEncoded(text);
    var more := true;
    while more
      invariant 0 <= k <= |text| && |chunks| == |pieces| == pageIndex && Joined(pieces) == text[..k]
      invariant 0 <= offset <= |bytes| && Encode(text[..k]) == bytes[..offset]
      invariant more <==> pageIndex == 0 || offset < |bytes|
      invariant pageIndex == 0 || pageIndex <= offset + 1
      invariant forall i :: 0 <= i < |chunks| ==> chunks[i] == Encode(pieces[i])
      invariant forall i :: 0 <= i < |chunks| ==> |chunks[i]| <= ChunkCapacity(pageSize, i, metadataLength)
      invariant Filled(pieces, pageSize, metadataLength)
      invariant pageIndex > 0 && more ==>
                  k < |text| &&
                  NoRoomFor(pieces[pageIndex - 1], text[k], ChunkCapacity(pageSize, pageIndex - 1, metadataLength))
      decreases |bytes| - offset, if pageIndex == 0 then 1 else 0
    {
      var capacity := ChunkCapacity(pageSize, pageIndex, metadataLength);
      var end := if |bytes| < offset + capacity then |bytes| else offset + capacity;
      ghost var limit := end;
      ghost var next := offset;
      if k < |text| {
        next := NextBoundary(text, k, offset);
      } else {
        assert text[..k] == text;
      }
      while end > offset && end < |bytes| && IsContinuation(bytes[end])
        invariant offset <= end <= |bytes| && end - offset <= capacity
        invariant pageIndex > 0 && offset < |bytes| ==> end >= next
        invariant end <= limit && (end < limit ==> limit < |bytes|)
        invariant forall j :: end < j <= limit && j < |bytes| ==> IsContinuation(bytes[j])
      {
        end := end - 1;
      }
      EndIsBoundary(text, k, offset, end);
      ghost var m := Cut(text, k, offset, end);
      JoinedNext(pieces, text[k..m]);
      if end < |bytes| {
        NextDoesNotFit(text, m, end, limit);
        assert NoRoomFor(text[k..m], text[m], capacity) by {
          RoomOf(text[k..m], text[m], capacity);
        }
      }
      FilledNext(pieces, text[k..m], pageSize, metadataLength);
      assert text[..m] == text[..k] + text[k..m];
      chunks, pieces := chunks + [bytes[offset..end]], pieces + [text[k..m]];
      offset, k := end, m;
      pageIndex := pageIndex + 1;
      more := offset < |bytes|;
    }
    WholeText(text, k);
  }

  /** Behind the last character that ends within the limit, the next one does not. */
  lemma NextDoesNotFit(text: seq<Scalar>, m: nat, end: nat, limit: nat)
    requires m <= |text| && end < |Encode(text)| && Encode(text[..m]) == Encode(text)[..end]
    requires end <= limit < |Encode(text)|
    requires forall j :: end < j <= limit ==> IsContinuation(Encode(text)[j])
    ensures m < |text| && end + |EncodeOne(text[m])| > limit
  {
    hide Encode, EncodeOne, IsContinuation;
    AllOf(text);
    var next := NextBoundary(text, m, end);
  }

  lemma AllOf(text: seq<Scalar>)
    ensures text[..|text|] == text
  {
  }

  lemma RoomOf(piece: seq<Scalar>, next: Scalar, capacity: int)
    ensures NoRoomFor(piece, next, capacity) <==> |Encode(piece)| + |EncodeOne(next)| > capacity
  {
  }

  lemma NothingFilled(pageSize: nat, metadataLength: nat)
    ensures Filled([], pageSize, metadataLength)
  {
  }

  lemma FilledNext(pieces: seq<seq<Scalar>>, piece: seq<Scalar>, pageSize: nat, metadataLength: nat)
    requires Filled(pieces, pageSize, metadataLength)
    requires pieces != [] ==>
               var n := |pieces| - 1;
               piece != [] && NoRoomFor(pieces[n], piece[0], ChunkCapacity(pageSize, n, metadataLength))
    ensures Filled(pieces + [piece], pageSize, metadataLength)
  {
    hide NoRoomFor;
  }

  // ---------------------------------------------------------------------
  // No split needs fewer pages
  // ---------------------------------------------------------------------

  lemma {:induction false} JoinedConcat(a: seq<seq<Scalar>>, b: seq<seq<Scalar>>)
    ensures Joined(a + b) == Joined(a) + Joined(b)
  {
    hide Joined;
    if b == [] {
      NothingJoined();
      assert a + b == a && Joined(a) + [] == Joined(a);
    } else {
      var n := |b| - 1;
      JoinedConcat(a, b[..n]);
      assert a + b == (a + b[..n]) + [b[n]] && b == b[..n] + [b[n]];
      JoinedNext(a + b[..n], b[n]);
      JoinedNext(b[..n], b[n]);
      assert Joined(a) + Joined(b[..n]) + b[n] == Joined(a) + (Joined(b[..n]) + b[n]);
    }
  }

  /** Where a piece lies in the text. */
  lemma PieceInText(pieces: seq<seq<Scalar>>, j: nat)
    requires j < |pieces|
    ensures var text, from, to := Joined(pieces), |Joined(pieces[..j])|, |Joined(pieces[..j + 1])|;
            from <= to <= |text| && text[from..to] == pieces[j]
  {
    JoinedConcat(pieces[..j + 1], pieces[j + 1..]);
    assert pieces == pieces[..j + 1] + pieces[j + 1..];
    assert pieces[..j + 1] == pieces[..j] + [pieces[j]];
    JoinedNext(pieces[..j], pieces[j]);
  }

  lemma PartIsShorter(text: seq<Scalar>, a: nat, i: nat, j: nat, b: nat)
    requires a <= i <= j <= b <= |text|
    ensures |Encode(text[i..j])| <= |Encode(text[a..b])|
  {
    assert text[a..b] == text[a..i] + (text[i..j] + text[j..b]);
    EncodeConcat(text[a..i], text[i..j] + text[j..b]);
    EncodeConcat(text[i..j], text[j..b]);
  }

  /** A piece that begins no later and ends later than a filled one does not fit. */
  lemma LongerDoesNotFit(text: seq<Scalar>, a: nat, i: nat, j: nat, b: nat, capacity: int)
    requires a <= i <= j < b <= |text| && NoRoomFor(text[i..j], text[j], capacity)
    ensures |Encode(text[a..b])| > capacity
  {
    hide Encode, EncodeOne;
    assert text[i..j + 1] == text[i..j] + [text[j]];
    EncodeConcat(text[i..j], [text[j]]);
    EncodesOne(text[j]);
    PartIsShorter(text, a, i, j + 1, b);
  }

  /** However a text is split, its first pages hold no more of it than the filled ones do. */
  lemma {:induction false} FilledIsAhead(pieces: seq<seq<Scalar>>, other: seq<seq<Scalar>>, j: nat, pageSize: nat,
                                         metadataLength: nat)
    requires Filled(pieces, pageSize, metadataLength) && PiecesFit(other, pageSize, metadataLength)
    requires Joined(other) == Joined(pieces) && j <= |other| && j <= |pieces|
    ensures |Joined(other[..j])| <= |Joined(pieces[..j])|
  {
    hide Encode, NoRoomFor, Joined;
    if j > 0 {
      FilledIsAhead(pieces, other, j - 1, pageSize, metadataLength);
      PieceInText(pieces, j - 1);
      PieceInText(other, j - 1);
      if j == |pieces| {
        assert pieces[..j] == pieces;
      } else if |Joined(other[..j])| > |Joined(pieces[..j])| {
        PieceInText(pieces, j);
        var text, end := Joined(pieces), |Joined(pieces[..j])|;
        assert text[end] == pieces[j][0];
        LongerDoesNotFit(text, |Joined(other[..j - 1])|, |Joined(pieces[..j - 1])|, end, |Joined(other[..j])|,
                         ChunkCapacity(pageSize, j - 1, metadataLength));
        assert false;
      }
    }
  }

  lemma NotEmpty(pieces: seq<seq<Scalar>>, n: nat, pageSize: nat, metadataLength: nat)
    requires Filled(pieces, pageSize, metadataLength) && 0 < n < |pieces|
    ensures pieces[n] != []
  {
  }

  /** No split of a text into pieces that fit their pages needs fewer pages than filling one after another. */
  lemma FilledIsFewest(pieces: seq<seq<Scalar>>, other: seq<seq<Scalar>>, pageSize: nat, metadataLength: nat)
    requires Filled(pieces, pageSize, metadataLength) && PiecesFit(other, pageSize, metadataLength)
    requires Joined(other) == Joined(pieces) && other != []
    ensures |pieces| <= |other|
  {
    hide NoRoomFor, Joined, PiecesFit, Filled;
    var n := |other|;
    if n < |pieces| {
      FilledIsAhead(pieces, other, n, pageSize, metadataLength);
      assert other[..n] == other;
      PieceInText(pieces, n);
      NotEmpty(pieces, n, pageSize, metadataLength);
    }
  }

  lemma EndIsBoundary(text: seq<Scalar>, k: nat, offset: nat, end: nat)
    requires k <= |text| && offset <= end <= |Encode(text)| && Encode(text[..k]) == Encode(text)[..offset]
    requires !(end > offset && end < |Encode(text)| && IsContinuation(Encode(text)[end]))
    ensures IsBoundary(Encode(text), end)
  {
    hide Encode, EncodeOne, IsContinuation;
    if end == offset < |Encode(text)| {
      RestAfter(text, k, offset);
      NothingEncoded(text[k..]);
      Shape(text[k]);
      FirstByte(text[k..]);
      assert Encode(text)[offset..][0] == Encode(text)[offset];
    }
  }

  /** All bytes cover all characters. */
  lemma WholeText(text: seq<Scalar>, k: nat)
    requires k <= |text| && Encode(text[..k]) == Encode(text)
    ensures text[..k] == text
  {
    assert text == text[..k] + text[k..];
    EncodeConcat(text[..k], text[k..]);
    NothingEncoded(text[k..]);
  }

  // ---------------------------------------------------------------------
  // Pages of an edited document
  // ---------------------------------------------------------------------

  /** The records an edit writes to page `i` of a document. */
  function PageRecords(i: nat, version: nat, metadata: Bytes, chunks: seq<Bytes>): seq<PageRecord> {
    (if i == 0 then [PageRecord(METADATA_RECORD_ID, version, metadata)] else []) +
    [PageRecord(CONTENT_RECORD_ID, version, if i < |chunks| then chunks[i] else [])]
  }

  /** Rewriting a page overflows it exactly if its chunk is longer than the capacity of the page. */
  lemma EditFits(pageSize: nat, i: nat, version: nat, metadata: Bytes, chunks: seq<Bytes>)
    ensures |Area(PageRecords(i, version, metadata, chunks))| <= pageSize - PAGE_HEADER_SIZE <==>
            (if i < |chunks| then |chunks[i]| else 0) <= ChunkCapacity(pageSize, i, |metadata|)
  {
    var records := PageRecords(i, version, metadata, chunks);
    RequiredIsArea(records);
    var n := |records| - 1;
    assert records[n].payload == if i < |chunks| then chunks[i] else [];
    if i == 0 {
      assert records[..1][..0] == [];
      assert Required(records[..1]) == RECORD_HEADER_SIZE + |metadata|;
    } else {
      assert records[..0] == [];
    }
  }

  /** The payload of the first content record of a page, as reading a document takes it. */
  function ContentOf(records: seq<PageRecord>): Bytes {
    if records == [] then []
    else if records[0].recordId == CONTENT_RECORD_ID then records[0].payload
    else ContentOf(records[1..])
  }

  /** What reading a document's pages, in order, makes of their records. */
  function TextOf(pages: seq<seq<PageRecord>>): seq<int> {
    if pages == [] then []
    else TextOf(pages[..|pages| - 1]) + Decode(ContentOf(pages[|pages| - 1]))
  }

  lemma ContentIsChunk(i: nat, version: nat, metadata: Bytes, chunks: seq<Bytes>)
    ensures ContentOf(PageRecords(i, version, metadata, chunks)) == if i < |chunks| then chunks[i] else []
  {
    var records := PageRecords(i, version, metadata, chunks);
    if i == 0 {
      assert records[1..] == [records[1]];
    }
  }

  function Layout(n: nat, version: nat, metadata: Bytes, chunks: seq<Bytes>): seq<seq<PageRecord>> {
    seq(n, i requires 0 <= i < n => PageRecords(i, version, metadata, chunks))
  }

  lemma DecodesNothing()
    ensures Decode([]) == []
  {
  }
}
