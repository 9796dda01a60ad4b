/**
  The cursor over the records of a file.
 */
module RmScan {
  import opened IxLevels
  import opened RmBitmap
  import opened RmFile

  const RM_FIRST_RECORD_PAGE := 1

  predicate Precedes(a: Rid, b: Rid)
  {
    a.page_no < b.page_no || (a.page_no == b.page_no && a.slot_no < b.slot_no)
  }

  /** `r` is the first record after `from`; a page number of -1 reports that there is none. */
  ghost predicate IsNext(contents: map<Rid, Bytes>, from: Rid, r: Rid)
  {
    && (r.page_no != RM_NO_PAGE ==> r in contents && Precedes(from, r))
    && (forall q :: q in contents && Precedes(from, q) ==> r.page_no != RM_NO_PAGE && (q == r || Precedes(r, q)))
  }

  class Cursor {
    const file: RmFileHandle
    var rid: Rid

    ghost predicate Valid()
      reads this, file
    {
      && file.Valid()
      && (rid.page_no == RM_NO_PAGE || (rid.page_no >= 1 && -1 <= rid.slot_no < file.perPage))
    }

    constructor (file: RmFileHandle)
      requires file.Valid()
      ensures this.file == file && Valid()
      ensures IsNext(file.contents, Rid(RM_FIRST_RECORD_PAGE, RM_NO_PAGE), rid)
    {
      this.file := file;
      rid := Rid(RM_FIRST_RECORD_PAGE, RM_NO_PAGE);
      new;
      Next();
    }

    predicate IsEnd()
      reads this
    {
      rid.page_no == RM_NO_PAGE
    }

    /** Moves to the next position that holds a record. */
    method Next()
      requires Valid() && !IsEnd()
      modifies this
      ensures Valid() && IsNext(file.contents, old(rid), rid)
    {
      hide IsSet, FreeList, Holds;
      var pageNo := rid.page_no;
      while pageNo < file.numPages
        invariant 1 <= pageNo && old(rid).page_no <= pageNo && -1 <= rid.slot_no < file.perPage
        invariant rid.slot_no == if pageNo == old(rid).page_no then old(rid).slot_no else -1
        invariant forall q :: q in file.contents && Precedes(old(rid), q) ==> q.page_no >= pageNo
      {
        assert PageOk(file.pages[pageNo], file.perPage);
        var slotNo := NextBit(true, file.pages[pageNo].bitmap, file.perPage, rid.slot_no);
        forall q | q in file.contents && Precedes(old(rid), q) ensures q.page_no > pageNo ||
            (q.page_no == pageNo && slotNo <= q.slot_no < file.perPage) {
          HoldsThere(file.pages, file.perPage, file.contents, q);
        }
        if slotNo < file.perPage {
          HoldsThere(file.pages, file.perPage, file.contents, Rid(pageNo, slotNo));
          rid := Rid(pageNo, slotNo);
          return;
        }
        rid := Rid(rid.page_no, RM_NO_PAGE);
        pageNo := pageNo + 1;
      }
      forall q | q in file.contents ensures q.page_no < file.numPages {
        HoldsThere(file.pages, file.perPage, file.contents, q);
      }
      rid := Rid(RM_NO_PAGE, rid.slot_no);
    }
  }

  ghost predicate Ascending(rids: seq<Rid>)
  {
    forall i, j :: 0 <= i < j < |rids| ==> Precedes(rids[i], rids[j])
  }

  /** A scan delivers every record once, in the order of page and slot, and then reports the end. */
  method ScanFile(file: RmFileHandle) returns (rids: seq<Rid>)
    requires file.Valid()
    ensures Ascending(rids)
    ensures forall r :: r in rids <==> r in file.contents
  {
    hide Holds, FreeList, PagesOk, Live;
    var cursor := new Cursor(file);
    rids := [];
    ghost var left := file.contents.Keys;
    FirstIsLeast(file);
    while !cursor.IsEnd()
      invariant cursor.Valid() && cursor.file == file
      invariant Ascending(rids) && left <= file.contents.Keys
      invariant forall r :: r in file.contents <==> r in rids || r in left
      invariant forall r :: r in left ==> !cursor.IsEnd() && (r == cursor.rid || Precedes(cursor.rid, r))
      invariant !cursor.IsEnd() ==> cursor.rid in left && forall r :: r in rids ==> Precedes(r, cursor.rid)
      decreases left
    {
      ghost var here := cursor.rid;
      rids := rids + [cursor.rid];
      left := left - {cursor.rid};
      cursor.Next();
    }
  }

  lemma {:induction false} FirstIsLeast(file: RmFileHandle)
    requires file.Valid()
    ensures forall r :: r in file.contents ==> Precedes(Rid(RM_FIRST_RECORD_PAGE, RM_NO_PAGE), r)
  {
    forall r | r in file.contents ensures r.page_no >= 1 && r.slot_no >= 0 {
      HoldsThere(file.pages, file.perPage, file.contents, r);
    }
  }
}
