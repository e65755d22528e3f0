/** One edit of a document, from the pages it finds to the page images it leaves, and what reading those gives. */
module DocumentEdits {
  import opened Collections
  import opened LittleEndian
  import opened Checksum
  import opened Utf8
  import opened Pages
  import opened Documents
  import opened Conflicts

  // ---------------------------------------------------------------------
  // Texts
  // ---------------------------------------------------------------------

  function Chars(text: seq<Scalar>): (s: string)
    ensures |s| == |text|
  {
    seq(|text|, i requires 0 <= i < |text| => text[i] as char)
  }

  function Scalars(s: string): (text: seq<Scalar>)
    ensures |text| == |s|
  {
    seq(|s|, i requires 0 <= i < |s| => s[i] as int)
  }

  /** The text after an operation. */
  function Edited(text: seq<Scalar>, op: Operation): seq<Scalar> {
    Scalars(ApplyOperation(Chars(text), op))
  }

  // ---------------------------------------------------------------------
  // Pages that hold a text
  // ---------------------------------------------------------------------

  /** The content records of the pages encode pieces of the text, one after another. */
  ghost predicate Holds(records: seq<seq<PageRecord>>, text: seq<Scalar>) {
    exists pieces: seq<seq<Scalar>> :: HoldsPieces(records, pieces) && Joined(pieces) == text
  }

  ghost predicate HoldsPieces(records: seq<seq<PageRecord>>, pieces: seq<seq<Scalar>>) {
    |pieces| == |records| && forall i :: 0 <= i < |records| ==> ContentOf(records[i]) == Encode(pieces[i])
  }

  lemma {:induction false} PiecesRead(records: seq<seq<PageRecord>>, pieces: seq<seq<Scalar>>)
    requires HoldsPieces(records, pieces)
    ensures TextOf(records) == Joined(pieces)
  {
    hide Encode, Decode, ContentOf;
    if records != [] {
      var n := |records| - 1;
      PiecesRead(records[..n], pieces[..n]);
      DecodesEncoded(pieces[n]);
    }
  }

  /** Reading the pages gives the text. */
  lemma HeldIsRead(records: seq<seq<PageRecord>>, text: seq<Scalar>)
    requires Holds(records, text)
    ensures TextOf(records) == text
  {
    var pieces: seq<seq<Scalar>> :| HoldsPieces(records, pieces) && Joined(pieces) == text;
    PiecesRead(records, pieces);
  }

  lemma {:induction false} JoinedEmpties(pieces: seq<seq<Scalar>>, n: nat)
    ensures Joined(pieces + seq(n, _ => [])) == Joined(pieces)
  {
    var none: seq<Scalar> := [];
    if n == 0 {
      assert pieces + seq(n, _ => []) == pieces;
    } else {
      JoinedEmpties(pieces, n - 1);
      assert pieces + seq(n, _ => none) == pieces + seq(n - 1, _ => none) + [none];
      JoinedNext(pieces + seq(n - 1, _ => none), none);
    }
  }

  /** A layout with at least as many pages as chunks holds the text. */
  lemma LayoutHolds(n: nat, version: nat, metadata: Bytes, chunks: seq<Bytes>, pieces: seq<seq<Scalar>>)
    requires |chunks| == |pieces| <= n && forall i :: 0 <= i < |chunks| ==> chunks[i] == Encode(pieces[i])
    ensures Holds(Layout(n, version, metadata, chunks), Joined(pieces))
  {
    hide Encode, ContentOf, PageRecords, Joined;
    var all := pieces + seq(n - |pieces|, _ => []);
    JoinedEmpties(pieces, n - |pieces|);
    EncodesNothing();
    var records := Layout(n, version, metadata, chunks);
    forall i | 0 <= i < n
      ensures ContentOf(records[i]) == Encode(all[i])
    {
      ContentIsChunk(i, version, metadata, chunks);
    }
    assert HoldsPieces(records, all);
  }

  lemma EncodesNothing()
    ensures Encode([]) == []
  {
  }

  /** The page of a new document holds the empty text. */
  lemma NewDocumentHolds(metadata: Bytes)
    ensures Holds([[PageRecord(METADATA_RECORD_ID, 1, metadata), PageRecord(CONTENT_RECORD_ID, 1, [])]], [])
  {
    var none: seq<Bytes> := [];
    var nothing: seq<seq<Scalar>> := [];
    LayoutHolds(1, 1, metadata, none, nothing);
    assert Joined(nothing) == [];
    assert PageRecords(0, 1, metadata, none) ==
           [PageRecord(METADATA_RECORD_ID, 1, metadata), PageRecord(CONTENT_RECORD_ID, 1, [])];
    assert Layout(1, 1, metadata, none) ==
           [[PageRecord(METADATA_RECORD_ID, 1, metadata), PageRecord(CONTENT_RECORD_ID, 1, [])]];
  }

  /** The records of an edit have all their fields in range. */
  lemma EditInRange(i: nat, version: nat, metadata: Bytes, chunks: seq<Bytes>, pageSize: nat)
    requires version < Limit(4) && pageSize < Limit(4)
    requires |Area(PageRecords(i, version, metadata, chunks))| <= pageSize - PAGE_HEADER_SIZE
    ensures var records := PageRecords(i, version, metadata, chunks);
            FirstUnfit(records) == |records| && |records| < Limit(2)
  {
    var records := PageRecords(i, version, metadata, chunks);
    Limits();
    hide Limit;
    forall k | 0 <= k < |records|
      ensures RecordFits(records[k])
    {
      RecordInArea(records, k);
    }
    hide RecordFits;
  }

  lemma RecordInArea(records: seq<PageRecord>, k: nat)
    requires k < |records|
    ensures |records[k].payload| <= |Area(records)|
  {
    AreaPrefix(records, k + 1);
    AreaNext(records, k);
    hide Area;
  }

  /** The version that a document's first page carries. */
  function VersionOf(records: seq<PageRecord>): nat {
    if records == [] then 0
    else if records[0].recordId == METADATA_RECORD_ID then records[0].version
    else VersionOf(records[1..])
  }

  /** The metadata that a document's first page carries. */
  function MetadataOf(records: seq<PageRecord>): Option<Bytes> {
    if records == [] then None
    else if records[0].recordId == METADATA_RECORD_ID then Some(records[0].payload)
    else MetadataOf(records[1..])
  }

  /** What finding the first record with an identity says about content, version and metadata. */
  lemma {:induction false} FoundFirst(records: seq<PageRecord>, id: nat, found: Option<PageRecord>)
    requires found.None? ==> forall k :: 0 <= k < |records| ==> records[k].recordId != id
    requires found.Some? ==>
               exists i :: 0 <= i < |records| && records[i] == found.value && found.value.recordId == id
                           && forall k :: 0 <= k < i ==> records[k].recordId != id
    ensures id == CONTENT_RECORD_ID ==> ContentOf(records) == if found.Some? then found.value.payload else []
    ensures id == METADATA_RECORD_ID ==> VersionOf(records) == if found.Some? then found.value.version else 0
    ensures id == METADATA_RECORD_ID ==>
              MetadataOf(records) == if found.Some? then Some(found.value.payload) else None
    decreases |records|
  {
    if records != [] && records[0].recordId != id {
      FoundFirst(records[1..], id, found);
    }
  }

  // ---------------------------------------------------------------------
  // Reading and editing
  // ---------------------------------------------------------------------

  ghost predicate PagesOk(pages: seq<Page>, pageSize: nat, records: seq<seq<PageRecord>>)
    reads pages, set p | p in pages :: p.buffer
  {
    && |records| == |pages|
    && (forall i :: 0 <= i < |pages| ==>
          pages[i].Valid() && pages[i].pageSize == pageSize && pages[i].records == records[i])
    && (forall i, j :: 0 <= i < j < |pages| ==> pages[i] != pages[j] && pages[i].buffer != pages[j].buffer)
  }

  /** The pages hold a document's records, all of one version: the metadata first, and a piece of content on each. */
  predicate IsLaidOut(pages: seq<seq<PageRecord>>, version: nat, metadata: Bytes) {
    forall i :: 0 <= i < |pages| ==>
      pages[i] == (if i == 0 then [PageRecord(METADATA_RECORD_ID, version, metadata)] else []) +
                  [PageRecord(CONTENT_RECORD_ID, version, ContentOf(pages[i]))]
  }

  lemma LayoutIsLaidOut(n: nat, version: nat, metadata: Bytes, chunks: seq<Bytes>)
    ensures |Layout(n, version, metadata, chunks)| == n
    ensures IsLaidOut(Layout(n, version, metadata, chunks), version, metadata)
  {
    hide ContentOf;
    var pages := Layout(n, version, metadata, chunks);
    forall i | 0 <= i < n
      ensures ContentOf(pages[i]) == if i < |chunks| then chunks[i] else []
    {
      ContentIsChunk(i, version, metadata, chunks);
    }
  }

  /** What the first page of such a document says. */
  lemma LaidOutSays(pages: seq<seq<PageRecord>>, version: nat, metadata: Bytes)
    requires IsLaidOut(pages, version, metadata) && pages != []
    ensures VersionOf(pages[0]) == version && MetadataOf(pages[0]) == Some(metadata)
  {
    hide ContentOf;
  }

  ghost function PageIds(pages: seq<Page>): (ids: seq<nat>)
    ensures |ids| == |pages|
  {
    seq(|pages|, i requires 0 <= i < |pages| => pages[i].pageId)
  }

  /** Version and metadata on the first page of a document. */
  method ReadMetadata(page: Page) returns (version: nat, metadata: Option<Bytes>)
    requires page.Valid()
    ensures version == VersionOf(page.records) && metadata == MetadataOf(page.records)
  {
    hide VersionOf, MetadataOf;
    var record := page.ReadRecord(METADATA_RECORD_ID);
    FoundFirst(page.records, METADATA_RECORD_ID, record);
    if record.None? {
      return 0, None;
    }
    version, metadata := record.value.version, Some(record.value.payload);
  }

  /** The text on the pages of a document, one page after another. */
  method ReadText(pages: seq<Page>, ghost pageSize: nat, ghost records: seq<seq<PageRecord>>)
    returns (text: seq<int>)
    requires PagesOk(pages, pageSize, records)
    ensures text == TextOf(records)
  {
    text := [];
    for i := 0 to |pages|
      invariant text == TextOf(records[..i])
    {
      var content := pages[i].ReadRecord(CONTENT_RECORD_ID);
      FoundFirst(records[i], CONTENT_RECORD_ID, content);
      hide ContentOf, Decode;
      DecodesNothing();
      assert records[..i + 1][..i] == records[..i];
      if content.Some? {
        text := text + Decode(content.value.payload);
      }
    }
    assert records[..|pages|] == records;
  }

  /** Grows the chain of pages to a number of pages. */
  method GrowChain(pages: seq<Page>, n: nat, pageSize: nat, nextPageId: nat, ghost records: seq<seq<PageRecord>>)
    returns (all: seq<Page>, ghost allRecords: seq<seq<PageRecord>>)
    requires PagesOk(pages, pageSize, records) && pageSize >= PAGE_HEADER_SIZE && nextPageId + n <= Limit(4)
    ensures pages <= all && |all| == if |pages| < n then n else |pages|
    ensures PagesOk(all, pageSize, allRecords)
    ensures forall i :: |pages| <= i < |all| ==> fresh(all[i]) && fresh(all[i].buffer)
    ensures forall i :: |pages| <= i < |all| ==> all[i].pageId == nextPageId + i - |pages|
  {
    hide Spells, Limit;
    all, allRecords := pages, records;
    while |all| < n
      invariant pages <= all && |all| <= (if |pages| < n then n else |pages|)
      invariant PagesOk(all, pageSize, allRecords)
      invariant forall i :: |pages| <= i < |all| ==> fresh(all[i]) && fresh(all[i].buffer)
      invariant forall i :: |pages| <= i < |all| ==> all[i].pageId == nextPageId + i - |pages|
    {
      var page := new Page(nextPageId + |all| - |pages|, pageSize);
      all, allRecords := all + [page], allRecords + [[]];
    }
  }

  /** Rewrites every page with its chunk; pages beyond the last chunk are emptied. */
  method WritePages(pages: seq<Page>, pageSize: nat, version: nat, metadata: Bytes, chunks: seq<Bytes>,
                    ghost records: seq<seq<PageRecord>>)
    requires PagesOk(pages, pageSize, records) && version < Limit(4) && pageSize < Limit(4)
    requires ChunkCapacity(pageSize, 0, |metadata|) >= 0
    requires forall j :: 0 <= j < |chunks| ==> |chunks[j]| <= ChunkCapacity(pageSize, j, |metadata|)
    modifies pages, set p | p in pages :: p.buffer
    ensures PagesOk(pages, pageSize, Layout(|pages|, version, metadata, chunks))
  {
    hide Spells, Area, PageRecords, RecordFits, Limit;
    for i := 0 to |pages|
      invariant forall k :: 0 <= k < |pages| ==> pages[k].Valid() && pages[k].pageSize == pageSize
      invariant forall k :: 0 <= k < i ==> pages[k].records == PageRecords(k, version, metadata, chunks)
    {
      EditFits(pageSize, i, version, metadata, chunks);
      EditInRange(i, version, metadata, chunks, pageSize);
      var r := pages[i].RewriteRecords(PageRecords(i, version, metadata, chunks));
    }
  }

  /** The images that the pages leave in the file. */
  method SerializeAll(table: seq<bv32>, pages: seq<Page>, pageSize: nat, ghost records: seq<seq<PageRecord>>)
    returns (images: seq<Bytes>, ghost ids: seq<nat>)
    requires PagesOk(pages, pageSize, records)
    requires |table| == 256 && forall i :: 0 <= i < 256 ==> table[i] == BitSteps(i as bv32, 8)
    ensures Spelled(images, ids, records, pageSize) && ids == PageIds(pages)
  {
    hide Spells, BitSteps, ImageChecksum;
    images, ids := [], [];
    for i := 0 to |pages|
      invariant Spelled(images, ids, records[..i], pageSize) && ids == PageIds(pages[..i])
    {
      var image := pages[i].Serialize(table);
      images, ids := images + [image], ids + [pages[i].pageId];
      assert records[..i + 1] == records[..i] + [records[i]];
    }
    assert records[..|pages|] == records && pages[..|pages|] == pages;
  }

  /** Sealed images of one size that spell the records. */
  ghost predicate Spelled(images: seq<Bytes>, ids: seq<nat>, records: seq<seq<PageRecord>>, pageSize: nat) {
    && |images| == |ids| == |records|
    && forall i :: 0 <= i < |images| ==>
         Sealed(images[i]) && |images[i]| == pageSize && Spells(images[i], ids[i], records[i])
  }

  /** Loads the pages of a document from their images, or fails on one that is damaged. */
  method LoadPages(table: seq<bv32>, images: seq<Bytes>, pageSize: nat, ghost ids: seq<nat>,
                   ghost records: seq<seq<PageRecord>>) returns (pages: seq<Page>)
    requires Spelled(images, ids, records, pageSize)
    requires |table| == 256 && forall i :: 0 <= i < 256 ==> table[i] == BitSteps(i as bv32, 8)
    requires pageSize >= PAGE_HEADER_SIZE
    ensures PagesOk(pages, pageSize, records)
  {
    hide Spells, BitSteps, ImageChecksum, Blank;
    pages := [];
    for i := 0 to |images|
      invariant PagesOk(pages, pageSize, records[..i]) && |pages| == i
      invariant forall k :: 0 <= k < i ==> fresh(pages[k]) && fresh(pages[k].buffer)
    {
      var r := Deserialize(table, images[i], pageSize);
      var page := new Page.FromImage(r.value, ids[i], records[i]);
      pages := pages + [page];
      assert records[..i + 1] == records[..i] + [records[i]];
    }
    assert records[..|images|] == records;
  }

  /** The new text goes to the pages, one chunk each, with more pages if need be, and their images to the file. */
  method LayOut(table: seq<bv32>, pages: seq<Page>, pageSize: nat, version: nat, metadata: Bytes, chunks: seq<Bytes>,
                nextPageId: nat, ghost pieces: seq<seq<Scalar>>, ghost records: seq<seq<PageRecord>>)
    returns (images: seq<Bytes>, ghost ids: seq<nat>, ghost newRecords: seq<seq<PageRecord>>)
    requires |table| == 256 && forall i :: 0 <= i < 256 ==> table[i] == BitSteps(i as bv32, 8)
    requires PagesOk(pages, pageSize, records) && version < Limit(4) && pageSize < Limit(4) && chunks != []
    requires ChunkCapacity(pageSize, 0, |metadata|) >= 0 && nextPageId + |chunks| <= Limit(4)
    requires forall j :: 0 <= j < |chunks| ==> |chunks[j]| <= ChunkCapacity(pageSize, j, |metadata|)
    requires |chunks| == |pieces| && forall i :: 0 <= i < |chunks| ==> chunks[i] == Encode(pieces[i])
    modifies pages, set p | p in pages :: p.buffer
    ensures Spelled(images, ids, newRecords, pageSize) && |images| == if |pages| < |chunks| then |chunks| else |pages|
    ensures |images| == |newRecords| && IsLaidOut(newRecords, version, metadata) && Holds(newRecords, Joined(pieces))
    ensures ids == PageIds(pages) + seq(|images| - |pages|, i requires 0 <= i => nextPageId + i)
  {
    hide Spells, Limit, Encode, Holds, Layout, Spelled, BitSteps, PageRecords, IsLaidOut, Joined;
    ghost var allRecords;
    var all;
    all, allRecords := GrowChain(pages, |chunks|, pageSize, nextPageId, records);
    WritePages(all, pageSize, version, metadata, chunks, allRecords);
    newRecords := Layout(|all|, version, metadata, chunks);
    LayoutHolds(|all|, version, metadata, chunks, pieces);
    LayoutIsLaidOut(|all|, version, metadata, chunks);
    images, ids := SerializeAll(table, all, pageSize, newRecords);
    SpelledLength(images, ids, newRecords, pageSize);
  }

  lemma SpelledLength(images: seq<Bytes>, ids: seq<nat>, records: seq<seq<PageRecord>>, pageSize: nat)
    requires Spelled(images, ids, records, pageSize)
    ensures |images| == |records|
  {
  }

  /** A document as it is read back. */
  datatype Document = Document(version: nat, metadata: Option<Bytes>, text: seq<int>)

  /** What becomes of an edit: done, or refused for its base version, its metadata or a version used up. */
  datatype EditOutcome<T> = Committed(value: T) | Conflict | NoSpace | VersionOverflow

  /** An edit is refused for its base version, or if not even the metadata can be written to the first page. */
  function Verdict(pageSize: nat, baseVersion: Option<nat>, version: nat, metadata: Bytes): EditOutcome<()> {
    if baseVersion.Some? && baseVersion.value != version then Conflict
    else
      match RewriteResult(PageRecords(0, version + 1, metadata, []), pageSize)
      case PageFull => NoSpace
      case Done(_) => Committed(())
      case _ => VersionOverflow
  }

  lemma VerdictIs(pageSize: nat, version: nat, metadata: Bytes)
    requires pageSize < Limit(4)
    ensures var r := RewriteResult(PageRecords(0, version + 1, metadata, []), pageSize);
            && (r.PageFull? <==> ChunkCapacity(pageSize, 0, |metadata|) < 0)
            && (!r.PageFull? ==> (r.Done? <==> version + 1 < Limit(4)))
  {
    var records := PageRecords(0, version + 1, metadata, []);
    EditFits(pageSize, 0, version + 1, metadata, []);
    if |Area(records)| <= pageSize - PAGE_HEADER_SIZE {
      if version + 1 < Limit(4) {
        EditInRange(0, version + 1, metadata, [], pageSize);
      } else {
        hide Area, Limit;
        assert !RecordFits(records[0]);
      }
    }
  }

  /** No split of the text that fits its pages needs more than some number of pages. */
  ghost predicate NoFewer(n: nat, text: seq<Scalar>, pageSize: nat, metadataLength: nat) {
    forall other :: other != [] && Joined(other) == text && PiecesFit(other, pageSize, metadataLength) ==> n <= |other|
  }

  lemma FilledNeedsNoFewer(pieces: seq<seq<Scalar>>, pageSize: nat, metadataLength: nat)
    requires Filled(pieces, pageSize, metadataLength)
    ensures NoFewer(|pieces|, Joined(pieces), pageSize, metadataLength)
  {
    hide Filled, Joined, PiecesFit;
    forall other | other != [] && Joined(other) == Joined(pieces) && PiecesFit(other, pageSize, metadataLength)
      ensures |pieces| <= |other|
    {
      FilledIsFewest(pieces, other, pageSize, metadataLength);
    }
  }

  /**
    * The body of an edit: check the version, read the text, apply the operation, split the new text, grow the chain
    * of pages, rewrite every page. `describe` makes the new metadata of the old one and the new text.
    */
  method ExecuteEdit(table: seq<bv32>, pages: seq<Page>, pageSize: nat, op: Operation, baseVersion: Option<nat>,
                     nextPageId: nat, describe: (Option<Bytes>, seq<Scalar>) -> Bytes,
                     ghost records: seq<seq<PageRecord>>, ghost text: seq<Scalar>)
    returns (images: EditOutcome<seq<Bytes>>, ghost ids: seq<nat>, ghost newRecords: seq<seq<PageRecord>>)
    requires |table| == 256 && forall i :: 0 <= i < 256 ==> table[i] == BitSteps(i as bv32, 8)
    requires PagesOk(pages, pageSize, records) && pages != [] && Holds(records, text)
    requires pageSize < Limit(4) && nextPageId + |Encode(Edited(text, op))| + 1 <= Limit(4)
    modifies pages, set p | p in pages :: p.buffer
    ensures var metadata := describe(MetadataOf(records[0]), Edited(text, op));
            var verdict := Verdict(pageSize, baseVersion, VersionOf(records[0]), metadata);
            && (images.Committed? <==> verdict.Committed?)
            && (!images.Committed? ==>
                  && PagesOk(pages, pageSize, records)
                  && images.Conflict? == verdict.Conflict? && images.NoSpace? == verdict.NoSpace?)
            && (images.Committed? ==>
                  && Spelled(images.value, ids, newRecords, pageSize) && |newRecords| >= |pages|
                  && Holds(newRecords, Edited(text, op))
                  && IsLaidOut(newRecords, VersionOf(records[0]) + 1, metadata)
                  && (|newRecords| > |pages| ==> NoFewer(|newRecords|, Edited(text, op), pageSize, |metadata|))
                  && ids == PageIds(pages) + seq(|newRecords| - |pages|, i requires 0 <= i => nextPageId + i))
  {
    hide Spells, Limit, Encode, Holds, ContentOf, Edited, Spelled, BitSteps, VersionOf, MetadataOf, TextOf, IsLaidOut,
        Filled, NoFewer, Joined, METADATA_RECORD_ID, RewriteResult;
    images, ids, newRecords := Conflict, [], [];
    var version, oldMetadata := ReadMetadata(pages[0]);
    if baseVersion.Some? && baseVersion.value != version {
      return;
    }
    var current := ReadText(pages, pageSize, records);
    HeldIsRead(records, text);
    var newText := Edited(current, op);
    var metadata := describe(oldMetadata, newText);
    VerdictIs(pageSize, version, metadata);
    // Without room for the metadata the first page overflows; a version out of range is refused.
    if ChunkCapacity(pageSize, 0, |metadata|) < 0 {
      images := NoSpace;
      return;
    }
    if version + 1 >= Limit(4) {
      images := VersionOverflow;
      return;
    }
    var chunks, pieces := SplitIntoChunks(newText, pageSize, |metadata|);
    FilledNeedsNoFewer(pieces, pageSize, |metadata|);
    var written;
    written, ids, newRecords :=
      LayOut(table, pages, pageSize, version + 1, metadata, chunks, nextPageId, pieces, records);
    images := Committed(written);
  }

  /** A document read from its pages. */
  method ReadDocument(pages: seq<Page>, ghost pageSize: nat, ghost records: seq<seq<PageRecord>>)
    returns (document: Document)
    requires PagesOk(pages, pageSize, records) && pages != []
    ensures document == Document(VersionOf(records[0]), MetadataOf(records[0]), TextOf(records))
  {
    hide VersionOf, MetadataOf, TextOf, Spells;
    var version, metadata := ReadMetadata(pages[0]);
    var text := ReadText(pages, pageSize, records);
    document := Document(version, metadata, text);
  }

  /** Editing a document and reading it back from the images gives the edited text, the metadata and the version. */
  method EditRoundTrip(table: seq<bv32>, pages: seq<Page>, pageSize: nat, op: Operation, baseVersion: Option<nat>,
                       nextPageId: nat, describe: (Option<Bytes>, seq<Scalar>) -> Bytes,
                       ghost records: seq<seq<PageRecord>>, ghost text: seq<Scalar>)
    returns (after: EditOutcome<Document>)
    requires |table| == 256 && forall i :: 0 <= i < 256 ==> table[i] == BitSteps(i as bv32, 8)
    requires PagesOk(pages, pageSize, records) && pages != [] && Holds(records, text)
    requires pageSize < Limit(4) && nextPageId + |Encode(Edited(text, op))| + 1 <= Limit(4)
    modifies pages, set p | p in pages :: p.buffer
    ensures var metadata := describe(MetadataOf(records[0]), Edited(text, op));
            after == match Verdict(pageSize, baseVersion, VersionOf(records[0]), metadata)
                     case Committed(_) =>
                       Committed(Document(VersionOf(records[0]) + 1, Some(metadata), Edited(text, op)))
                     case Conflict => Conflict
                     case NoSpace => NoSpace
                     case VersionOverflow => VersionOverflow
  {
    hide Spells, Limit, Encode, Holds, Edited, Spelled, BitSteps, VersionOf, MetadataOf, IsLaidOut, NoFewer, TextOf,
        RewriteResult;
    var images, ids, newRecords :=
      ExecuteEdit(table, pages, pageSize, op, baseVersion, nextPageId, describe, records, text);
    match images {
      case Conflict => return Conflict;
      case NoSpace => return NoSpace;
      case VersionOverflow => return VersionOverflow;
      case Committed(written) =>
        SpelledSize(written, ids, newRecords, pageSize);
        var loaded := LoadPages(table, written, pageSize, ids, newRecords);
        var document := ReadDocument(loaded, pageSize, newRecords);
        HeldIsRead(newRecords, Edited(text, op));
        ghost var metadata := describe(MetadataOf(records[0]), Edited(text, op));
        LaidOutSays(newRecords, VersionOf(records[0]) + 1, metadata);
        after := Committed(document);
    }
  }

  lemma SpelledSize(images: seq<Bytes>, ids: seq<nat>, records: seq<seq<PageRecord>>, pageSize: nat)
    requires Spelled(images, ids, records, pageSize) && records != []
    ensures pageSize >= PAGE_HEADER_SIZE
  {
    assert Sealed(images[0]);
  }
}
