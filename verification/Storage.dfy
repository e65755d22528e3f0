/** The page file and the directory of documents. */
module Storage {
  import opened Ids
  import opened Records

  datatype Result<T> = Ok(value: T) | Err(error: Error)

  datatype Error = DocumentNotFound | ReservedRegion | ShortRead | Corrupted | PoolFull | NotActive | StaleVersion

  /** Each document owns its pages alone, in ascending order, all inside the file and past the directory region. */
  ghost predicate DirectoryOk(directory: map<int, seq<PageId>>, directoryPages: nat, pageCount: nat) {
    && directoryPages <= pageCount
    && (forall d, i :: d in directory && 0 <= i < |directory[d]| ==> directoryPages <= directory[d][i] < pageCount)
    && (forall d, i, j :: d in directory && 0 <= i < j < |directory[d]| ==> directory[d][i] < directory[d][j])
    && (forall d, e, i, j ::
        d in directory && e in directory && d != e && 0 <= i < |directory[d]| && 0 <= j < |directory[e]| ==>
          directory[d][i] != directory[e][j])
  }

  class StorageManager {
    const directoryPages: nat
    /** The image of an empty page. */
    const emptyPage: PageId -> Bytes
    /** Whether an image reads as a page: it is blank, or its checksum matches. */
    const intact: Bytes -> bool
    var disk: Disk
    var directory: map<int, seq<PageId>>

    ghost predicate Valid()
      reads this
    {
      DirectoryOk(directory, directoryPages, |disk.pages|)
    }

    /** The page can be read from a state of the file. */
    predicate Readable(d: Disk, p: PageId) {
      directoryPages <= p < |d.pages| && intact(At(d, p))
    }

    constructor (directoryPages: nat, blank: Bytes, emptyPage: PageId -> Bytes, intact: Bytes -> bool)
      ensures Valid() && directory == map[] && fresh(this)
      ensures this.directoryPages == directoryPages && this.emptyPage == emptyPage && this.intact == intact
      ensures disk == Disk(blank, seq(directoryPages, _ => blank))
    {
      this.directoryPages, this.emptyPage, this.intact := directoryPages, emptyPage, intact;
      disk, directory := Disk(blank, seq(directoryPages, _ => blank)), map[];
    }

    /** A new document starts with one empty page; a known one keeps its pages. */
    method CreateDocument(docId: int) returns (first: PageId)
      requires Valid() && (docId in directory ==> directory[docId] != [])
      modifies this
      ensures Valid() && docId in directory && directory[docId] != [] && directory[docId][0] == first
      ensures docId in old(directory) ==> directory == old(directory) && disk == old(disk)
      ensures docId !in old(directory) ==>
                && directory == old(directory)[docId := [|old(disk).pages|]]
                && disk == Put(old(disk), |old(disk).pages|, emptyPage(|old(disk).pages|))
    {
      if docId in directory {
        return directory[docId][0];
      }
      directory := directory[docId := []];
      var page := AllocatePage(docId);
      first := page.value;
      assert [] + [first] == [first];
      assert directory == old(directory)[docId := [first]];
    }

    /** Extends the file by one empty page, the largest so far, and attaches it to a document. */
    method AllocatePage(docId: int) returns (page: Result<PageId>)
      requires Valid()
      modifies this
      ensures Valid()
      ensures docId !in old(directory) ==>
                page == Err(DocumentNotFound) && directory == old(directory) && disk == old(disk)
      ensures docId in old(directory) ==>
                && page == Ok(|old(disk).pages|)
                && disk == Put(old(disk), |old(disk).pages|, emptyPage(|old(disk).pages|))
                && directory == old(directory)[docId := old(directory)[docId] + [|old(disk).pages|]]
    {
      if docId !in directory {
        return Err(DocumentNotFound);
      }
      var p := |disk.pages|;
      disk := Grown(disk, p);
      WritePage(p, emptyPage(p));
      directory := directory[docId := directory[docId] + [p]];
      page := Ok(p);
    }

    method ReadPage(p: PageId) returns (image: Result<Bytes>)
      ensures image ==
              if p < directoryPages then Err(ReservedRegion)
              else if p >= |disk.pages| then Err(ShortRead)
              else if !intact(At(disk, p)) then Err(Corrupted)
              else Ok(At(disk, p))
    {
      if p < directoryPages {
        return Err(ReservedRegion);
      }
      if p >= |disk.pages| {
        return Err(ShortRead);
      }
      image := if intact(disk.pages[p]) then Ok(disk.pages[p]) else Err(Corrupted);
    }

    method WritePage(p: PageId, image: Bytes)
      modifies `disk
      ensures disk == Put(old(disk), p, image)
    {
      disk := Put(disk, p, image);
    }
  }
}
