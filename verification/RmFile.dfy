/**
  The slotted record file: pages with a bitmap, a list of pages with room, and the operations
  that keep both in step with the records.
 */
module RmFile {
  import opened Config
  import opened RmBitmap
  import opened IxLevels

  const RM_NO_PAGE := -1

  // ---------- layout ----------

  const RM_MAX_RECORD_SIZE := 512
  const FILE_HDR_SIZE := 28
  const PAGE_HDR_SIZE := 8
  const OFFSET_PAGE_HDR := 4

  function RecordsPerPage(recordSize: nat): int
  {
    (8 * (PAGE_SIZE - 1 - FILE_HDR_SIZE) + 1) / (1 + recordSize * 8)
  }

  function BitmapSize(n: nat): nat
  {
    (n + 7) / 8
  }

  /** Where slot `s` starts in its page. */
  function SlotOffset(recordSize: nat, s: int): int
    requires RecordsPerPage(recordSize) >= 0
  {
    OFFSET_PAGE_HDR + PAGE_HDR_SIZE + BitmapSize(RecordsPerPage(recordSize)) + s * recordSize
  }

  /** Every slot that the header promises lies inside the page, behind a bitmap with a bit for it. */
  lemma {:induction false} LayoutFits(recordSize: nat)
    requires 1 <= recordSize <= RM_MAX_RECORD_SIZE
    ensures RecordsPerPage(recordSize) >= 1
    ensures var n := RecordsPerPage(recordSize);
            && n * (1 + recordSize * 8) <= 8 * (PAGE_SIZE - 1 - FILE_HDR_SIZE) + 1 < (n + 1) * (1 + recordSize * 8)
            && n <= 8 * BitmapSize(n)
            && (forall s :: 0 <= s < n ==> OFFSET_PAGE_HDR + PAGE_HDR_SIZE + BitmapSize(n) <= SlotOffset(recordSize, s))
            && (forall s, t :: 0 <= s < t < n ==> SlotOffset(recordSize, s) + recordSize <= SlotOffset(recordSize, t))
            && forall s :: 0 <= s < n ==> SlotOffset(recordSize, s) + recordSize <= PAGE_SIZE
  {
    hide BitmapSize;
    var w := 1 + recordSize * 8;
    var n := RecordsPerPage(recordSize);
    Quotient(8 * (PAGE_SIZE - 1 - FILE_HDR_SIZE) + 1, w);
    Split(n, recordSize);
    BitmapFits(n);
    forall s: nat | s < n ensures SlotOffset(recordSize, s) + recordSize <= PAGE_SIZE {
      LastSlot(s, n, recordSize);
    }
    forall s: nat, t | s < t < n ensures SlotOffset(recordSize, s) + recordSize <= SlotOffset(recordSize, t) {
      LastSlot(s, t, recordSize);
    }
    forall s: nat | s < n ensures SlotOffset(recordSize, s) >= SlotOffset(recordSize, 0) {
      LastSlot(s, n, recordSize);
    }
  }

  lemma {:induction false} Quotient(a: nat, b: nat)
    requires 0 < b
    ensures (a / b) * b <= a < (a / b + 1) * b
    ensures a >= b ==> a / b >= 1
  {
    assert a == (a / b) * b + a % b;
  }

  lemma {:induction false} Split(n: int, r: int)
    ensures n * (1 + r * 8) == n + 8 * (n * r)
  {
    assert n * (r * 8) == 8 * (n * r);
  }

  lemma {:induction false} BitmapFits(n: nat)
    ensures n <= 8 * BitmapSize(n) <= n + 7
  {
  }

  lemma {:induction false} LastSlot(s: nat, n: nat, r: nat)
    requires s < n
    ensures s * r + r <= n * r
  {
    assert (n - s - 1) * r >= 0;
    assert n * r == s * r + r + (n - s - 1) * r;
  }

  // ---------- pages ----------

  datatype Page = Page(next: int, num: nat, bitmap: Bytes, slots: seq<Bytes>)

  ghost predicate PageOk(p: Page, n: nat)
  {
    |p.bitmap| == BitmapSize(n) && |p.slots| == n && p.num == Count(p.bitmap, n)
  }

  ghost predicate PagesOk(pages: map<int, Page>, n: nat)
  {
    forall p :: p in pages ==> PageOk(pages[p], n)
  }

  predicate Live(pages: map<int, Page>, n: nat, r: Rid)
  {
    && r.page_no in pages && 0 <= r.slot_no < n
    && Fits(pages[r.page_no].bitmap, r.slot_no) && IsSet(pages[r.page_no].bitmap, r.slot_no)
  }

  /** The live slots are the records of the file. */
  ghost predicate Holds(pages: map<int, Page>, n: nat, contents: map<Rid, Bytes>)
  {
    forall r :: (r in contents <==> Live(pages, n, r)) && (Live(pages, n, r) ==> HoldsAt(pages, contents, r))
  }

  ghost predicate HoldsAt(pages: map<int, Page>, contents: map<Rid, Bytes>, r: Rid)
    requires r.page_no in pages
  {
    r in contents && 0 <= r.slot_no < |pages[r.page_no].slots| && contents[r] == pages[r.page_no].slots[r.slot_no]
  }

  predicate Room(pages: map<int, Page>, n: nat, p: int)
  {
    p in pages && pages[p].num < n
  }

  /** The pages with room, chained from `first`; the first of them may just have filled up. */
  ghost predicate FreeList(pages: map<int, Page>, n: nat, first: int, free: seq<int>)
  {
    && first == (if free == [] then RM_NO_PAGE else free[0])
    && (forall i :: 0 <= i < |free| ==> FreeAt(pages, free, i))
    && (forall i, j :: 0 <= i < j < |free| ==> free[i] != free[j])
    && (forall p :: Room(pages, n, p) ==> p in free)
    && (forall i :: 0 < i < |free| ==> Room(pages, n, free[i]))
  }

  ghost predicate FreeAt(pages: map<int, Page>, free: seq<int>, i: nat)
    requires i < |free|
  {
    free[i] in pages && pages[free[i]].next == if i + 1 < |free| then free[i + 1] else RM_NO_PAGE
  }

  class RmFileHandle {
    const recordSize: nat
    const perPage: nat

    var pages: map<int, Page>
    var numPages: int
    var firstFree: int

    ghost var contents: map<Rid, Bytes>
    ghost var free: seq<int>

    ghost predicate Weak()
      reads this
    {
      && perPage >= 1 && numPages >= 1
      && (forall p :: p in pages <==> 1 <= p < numPages)
      && PagesOk(pages, perPage)
      && Holds(pages, perPage, contents)
      && FreeList(pages, perPage, firstFree, free)
    }

    /** Between operations the free list holds exactly the pages that are not full. */
    ghost predicate Valid()
      reads this
    {
      Weak() && (free != [] ==> Room(pages, perPage, free[0]))
    }

    /** `create_file` followed by `open_file`. */
    constructor (recordSize: nat)
      requires 1 <= recordSize <= RM_MAX_RECORD_SIZE
      ensures Valid() && contents == map[] && this.recordSize == recordSize && perPage == RecordsPerPage(recordSize)
    {
      LayoutFits(recordSize);
      this.recordSize, perPage := recordSize, RecordsPerPage(recordSize);
      pages, numPages, firstFree := map[], 1, RM_NO_PAGE;
      contents, free := map[], [];
    }

    /** A zeroed page at the end of the file becomes the first page with room. */
    method CreateNewPageHandle() returns (p: int)
      requires Valid()
      modifies this
      ensures Valid() && contents == old(contents) && p == numPages - 1 && numPages == old(numPages) + 1
      ensures free == [p] + old(free)
    {
      p := numPages;
      ghost var pages0 := pages;
      var bitmap := seq(BitmapSize(perPage), _ => 0 as bv8);
      var slots := seq(perPage, _ => []);
      pages := pages[p := Page(firstFree, 0, bitmap, slots)];
      EmptyPage(bitmap, perPage);
      firstFree := p;
      numPages := numPages + 1;
      free := [p] + free;
      NewPageHolds(pages0, perPage, contents, p, pages[p]);
      NewPageFree(pages0, perPage, free[1..], p, pages[p]);
    }

    /** The first page with room, a new one if there is none. */
    method CreatePageHandle() returns (p: int)
      requires Valid()
      modifies this
      ensures Valid() && contents == old(contents) && free != [] && p == free[0]
      ensures p == if old(free) != [] then old(free)[0] else old(numPages)
    {
      if firstFree == RM_NO_PAGE {
        p := CreateNewPageHandle();
      } else {
        p := firstFree;
      }
    }

    /** Writes a record into a free slot of the first page with room. */
    method FillSlot(p: int, slot: nat, buf: Bytes)
      requires Weak() && free != [] && p == free[0] && slot < perPage && !Live(pages, perPage, Rid(p, slot))
      modifies `pages, `contents
      ensures Weak() && contents == old(contents)[Rid(p, slot) := buf]
      ensures p in old(pages) && pages == old(pages)[p := pages[p]] && Rid(p, slot) !in old(contents)
      ensures slot / 8 < |old(pages)[p].bitmap| && pages[p].bitmap == SetBit(old(pages)[p].bitmap, slot)
      ensures pages[p].num == old(pages)[p].num + 1
    {
      hide IsSet, SetBit;
      assert FreeAt(pages, free, 0);
      var page := pages[p];
      assert PageOk(page, perPage);
      CountSet(page.bitmap, perPage, slot);
      var page' := Page(page.next, page.num + 1, SetBit(page.bitmap, slot), page.slots[slot := buf]);
      FillHolds(pages, perPage, contents, p, slot, buf, page');
      FillFree(pages, perPage, firstFree, free, p, page');
      pages := pages[p := page'];
      contents := contents[Rid(p, slot) := buf];
    }

    /** Takes the first page off the list when it has filled up. */
    method UnlinkFull(p: int)
      requires Weak() && free != [] && p == free[0]
      modifies `pages, `firstFree, `free
      ensures Valid() && contents == old(contents)
    {
      assert FreeAt(pages, free, 0);
      if pages[p].num == perPage {
        firstFree := pages[p].next;
        PopFree(pages, perPage, free, p);
        PopHolds(pages, perPage, contents, p);
        pages := pages[p := pages[p].(next := RM_NO_PAGE)];
        free := free[1..];
      } else {
        assert PageOk(pages[p], perPage);
      }
    }

    /** Stores a record in the first slot without one of the first page with room. */
    method InsertRecord(buf: Bytes) returns (rid: Rid)
      requires Valid()
      modifies this
      ensures Valid() && rid !in old(contents) && contents == old(contents)[rid := buf]
      ensures rid.page_no == (if old(free) != [] then old(free)[0] else old(numPages)) && 0 <= rid.slot_no < perPage
      ensures forall s :: 0 <= s < rid.slot_no ==> Rid(rid.page_no, s) in old(contents)
    {
      hide IsSet, SetBit, Holds, FreeList;
      var p := CreatePageHandle();
      FirstHasRoom(pages, perPage, firstFree, free);
      assert PageOk(pages[p], perPage);
      CountFull(pages[p].bitmap, perPage);
      var slot := NextBit(false, pages[p].bitmap, perPage, -1);
      assert slot < perPage;
      rid := Rid(p, slot);
      forall s: nat | s < slot ensures Rid(p, s) in contents {
        HoldsBit(pages, perPage, contents, p, s);
      }
      FillSlot(p, slot, buf);
      UnlinkFull(p);
    }

    /** A page number that `fetch_page_handle` accepts. */
    predicate Exists(p: int)
      reads this
    {
      0 <= p < numPages
    }

    /** The record at `rid`, or not found: a bad page number, or a clear bit. */
    method GetRecord(rid: Rid) returns (found: bool, record: Bytes)
      requires Valid() && rid.page_no != 0 && 0 <= rid.slot_no < perPage
      ensures found <==> rid in contents
      ensures found ==> record == contents[rid]
    {
      hide IsSet, FreeList;
      HoldsThere(pages, perPage, contents, rid);
      if !Exists(rid.page_no) { return false, []; }
      assert PageOk(pages[rid.page_no], perPage);
      if !IsSet(pages[rid.page_no].bitmap, rid.slot_no) { return false, []; }
      return true, pages[rid.page_no].slots[rid.slot_no];
    }

    method UpdateRecord(rid: Rid, buf: Bytes) returns (found: bool)
      requires Valid() && rid.page_no != 0 && 0 <= rid.slot_no < perPage
      modifies `pages, `contents
      ensures Valid() && (found <==> rid in old(contents))
      ensures contents == if found then old(contents)[rid := buf] else old(contents)
    {
      hide IsSet, FreeList;
      HoldsThere(pages, perPage, contents, rid);
      if !Exists(rid.page_no) { return false; }
      var p := rid.page_no;
      assert PageOk(pages[p], perPage);
      if !IsSet(pages[p].bitmap, rid.slot_no) { return false; }
      var page' := pages[p].(slots := pages[p].slots[rid.slot_no := buf]);
      OverwriteHolds(pages, perPage, contents, rid, buf);
      SameFree(pages, perPage, firstFree, free, p, page');
      pages, contents := pages[p := page'], contents[rid := buf];
      found := true;
    }

    /** Puts a page that was full back at the head of the list of pages with room. */
    method ReleasePageHandle(p: int)
      requires perPage >= 1 && numPages >= 1 && (forall p :: p in pages <==> 1 <= p < numPages)
      requires PagesOk(pages, perPage) && Holds(pages, perPage, contents)
      requires p in pages && pages[p].num == perPage - 1 && p !in free
      requires FreeList(pages[p := pages[p].(num := perPage)], perPage, firstFree, free)
      requires free != [] ==> Room(pages, perPage, free[0])
      modifies `pages, `firstFree, `free
      ensures Valid() && contents == old(contents) && free == [p] + old(free)
    {
      hide IsSet, Holds;
      FirstIsNot(pages, firstFree, free, p);
      if firstFree != p {
        PopHolds(pages, perPage, contents, p);
        PushFree(pages, perPage, firstFree, free, p);
        assert PageOk(pages[p], perPage);
        pages := pages[p := pages[p].(next := firstFree)];
        firstFree := p;
        free := [p] + free;
      }
    }

    method DeleteRecord(rid: Rid) returns (found: bool)
      requires Valid() && rid.page_no != 0 && 0 <= rid.slot_no < perPage
      modifies this
      ensures Valid() && (found <==> rid in old(contents))
      ensures contents == old(contents) - {rid}
    {
      hide IsSet, ResetBit, FreeList;
      HoldsThere(pages, perPage, contents, rid);
      if !Exists(rid.page_no) { return false; }
      var p := rid.page_no;
      var page := pages[p];
      assert PageOk(page, perPage);
      if !IsSet(page.bitmap, rid.slot_no) { return false; }
      var flag := page.num == perPage;
      CountReset(page.bitmap, perPage, rid.slot_no);
      var page' := page.(bitmap := ResetBit(page.bitmap, rid.slot_no), num := page.num - 1);
      ResetHolds(pages, perPage, contents, rid, page');
      ghost var pages0 := pages;
      pages, contents := pages[p := page'], contents - {rid};
      if flag {
        FullNotFree(pages0, perPage, firstFree, free, p);
        assert pages[p := pages[p].(num := perPage)] == pages0[p := page'.(num := perPage)];
        SameFree(pages0, perPage, firstFree, free, p, page'.(num := perPage));
        ReleasePageHandle(p);
      } else {
        SameFree(pages0, perPage, firstFree, free, p, page');
      }
      found := true;
    }

    /** Stores all the records, filling one page with room after the other. */
    method InsertRecordsBatch(bufs: seq<Bytes>) returns (rids: seq<Rid>)
      requires Valid()
      modifies this
      ensures Valid() && Added(old(contents), contents, rids, bufs)
    {
      hide IsSet, SetBit, Holds, FreeList;
      rids := [];
      while |rids| < |bufs|
        invariant Valid() && |rids| <= |bufs|
        invariant Added(old(contents), contents, rids, bufs[..|rids|])
        decreases |bufs| - |rids|
      {
        var p := CreatePageHandle();
        FirstHasRoom(pages, perPage, firstFree, free);
        var batch := FillPage(p, bufs, rids, old(contents));
        rids := rids + batch;
        UnlinkFull(p);
      }
      assert bufs[..|rids|] == bufs;
    }

    /** Fills the clear slots of the first page with room with as many of the remaining records as fit. */
    method FillPage(p: int, bufs: seq<Bytes>, rids: seq<Rid>, ghost before: map<Rid, Bytes>) returns (more: seq<Rid>)
      requires Valid() && free != [] && p == free[0] && p in pages && |rids| < |bufs|
      requires Added(before, contents, rids, bufs[..|rids|])
      modifies `pages, `contents
      ensures Weak() && 0 < |more| && |rids| + |more| <= |bufs|
      ensures Added(before, contents, rids + more, bufs[..|rids| + |more|])
    {
      hide *;
      Opened(this);
      var remain := perPage - pages[p].num;
      var batch: nat := if remain < |bufs| - |rids| then remain else |bufs| - |rids|;
      ghost var batch0 := batch;
      var i := 0;
      more := [];
      assert rids + more == rids;
      LeftAtStart(pages[p], perPage, batch);
      while i < perPage && batch > 0
        invariant 0 <= i <= perPage && Weak() && free != [] && p == free[0] && p in pages
        invariant batch + |more| == batch0
        invariant LeftFrom(pages[p], perPage, i, batch)
        invariant PageOk(pages[p], perPage)
        invariant Added(before, contents, rids + more, bufs[..|rids| + |more|])
      {
        LiveBit(pages, perPage, Rid(p, i));
        if !IsSet(pages[p].bitmap, i) {
          var n := |rids| + |more|;
          LeftAfterSet(pages[p], perPage, i, batch);
          ghost var was := contents;
          FillSlot(p, i, bufs[n]);
          AddOne(before, was, rids + more, bufs[..n], Rid(p, i), bufs[n]);
          assert bufs[..n] + [bufs[n]] == bufs[..n + 1] && rids + (more + [Rid(p, i)]) == rids + more + [Rid(p, i)];
          more := more + [Rid(p, i)];
          batch := batch - 1;
          Opened(this);
          if |rids| + |more| >= |bufs| { break; }
        } else {
          LeftAfterSkip(pages[p], perPage, i, batch);
        }
        i := i + 1;
      }
      if i == perPage {
        NoneLeft(pages[p], perPage, i, batch);
      }
    }
  }

  lemma {:induction false} Opened(f: RmFileHandle)
    requires f.Weak() || f.Valid()
    ensures f.Weak()
    ensures f.free != [] ==> f.free[0] in f.pages && PageOk(f.pages[f.free[0]], f.perPage)
    ensures f.free != [] && f.Valid() ==> f.pages[f.free[0]].num < f.perPage
  {
    assert f.free != [] ==> FreeAt(f.pages, f.free, 0);
  }

  /** At least `k` slots from `i` on are free. */
  ghost predicate LeftFrom(page: Page, n: nat, i: nat, k: int)
  {
    i <= n <= 8 * |page.bitmap| && Count(page.bitmap, n) - Count(page.bitmap, i) <= n - i - k
  }

  lemma {:induction false} LeftAtStart(page: Page, n: nat, k: int)
    requires PageOk(page, n) && page.num <= n - k
    ensures LeftFrom(page, n, 0, k)
  {
  }

  lemma {:induction false} LeftAfterSet(page: Page, n: nat, i: nat, k: int)
    requires LeftFrom(page, n, i, k) && i < n && Fits(page.bitmap, i) && !IsSet(page.bitmap, i)
    ensures forall page': Page :: page'.bitmap == SetBit(page.bitmap, i) ==> LeftFrom(page', n, i + 1, k - 1)
  {
    hide IsSet, SetBit;
    CountSet(page.bitmap, n, i);
    CountSet(page.bitmap, i + 1, i);
  }

  lemma {:induction false} LeftAfterSkip(page: Page, n: nat, i: nat, k: int)
    requires LeftFrom(page, n, i, k) && i < n && Fits(page.bitmap, i) && IsSet(page.bitmap, i)
    ensures LeftFrom(page, n, i + 1, k)
  {
  }

  lemma {:induction false} NoneLeft(page: Page, n: nat, i: nat, k: int)
    requires LeftFrom(page, n, i, k)
    ensures i == n ==> k <= 0
  {
  }

  lemma {:induction false} LiveBit(pages: map<int, Page>, n: nat, r: Rid)
    requires r.page_no in pages && PageOk(pages[r.page_no], n) && 0 <= r.slot_no < n
    ensures Fits(pages[r.page_no].bitmap, r.slot_no)
    ensures Live(pages, n, r) <==> IsSet(pages[r.page_no].bitmap, r.slot_no)
  {
  }

  /** `after` is `before` with the records stored at distinct positions that were free. */
  ghost predicate Added(before: map<Rid, Bytes>, after: map<Rid, Bytes>, rids: seq<Rid>, recs: seq<Bytes>)
  {
    && |rids| == |recs|
    && (forall i, j :: 0 <= i < j < |rids| ==> rids[i] != rids[j])
    && (forall i :: 0 <= i < |rids| ==> rids[i] !in before && rids[i] in after && after[rids[i]] == recs[i])
    && (forall r :: r in before ==> r in after && after[r] == before[r])
    && (forall r :: r in after ==> r in before || r in rids)
  }

  lemma {:induction false} AddOne(before: map<Rid, Bytes>, after: map<Rid, Bytes>, rids: seq<Rid>, recs: seq<Bytes>,
      rid: Rid, rec: Bytes)
    requires Added(before, after, rids, recs) && rid !in after
    ensures Added(before, after[rid := rec], rids + [rid], recs + [rec])
  {
    var after', rids', recs' := after[rid := rec], rids + [rid], recs + [rec];
    forall i | 0 <= i < |rids'| ensures rids'[i] !in before && rids'[i] in after' && after'[rids'[i]] == recs'[i] {
      if i < |rids| {
        assert rids[i] in after;
      }
    }
    forall r | r in after' ensures r in before || r in rids' {
      assert r == rid ==> rids'[|rids|] == rid;
      assert r != rid ==> r in after;
    }
  }

  lemma {:induction false} HoldsThere(pages: map<int, Page>, n: nat, contents: map<Rid, Bytes>, r: Rid)
    requires Holds(pages, n, contents)
    ensures r in contents <==> Live(pages, n, r)
    ensures Live(pages, n, r) ==> HoldsAt(pages, contents, r)
  {
  }

  lemma {:induction false} OverwriteHolds(pages: map<int, Page>, n: nat, contents: map<Rid, Bytes>, rid: Rid,
      buf: Bytes)
    requires Holds(pages, n, contents) && PagesOk(pages, n) && rid in contents
    requires rid.page_no in pages && 0 <= rid.slot_no < |pages[rid.page_no].slots|
    ensures Holds(pages[rid.page_no := pages[rid.page_no].(slots := pages[rid.page_no].slots[rid.slot_no := buf])], n,
        contents[rid := buf])
  {
    hide IsSet;
    var page' := pages[rid.page_no].(slots := pages[rid.page_no].slots[rid.slot_no := buf]);
    var pages', contents' := pages[rid.page_no := page'], contents[rid := buf];
    forall r ensures (r in contents' <==> Live(pages', n, r)) &&
        (Live(pages', n, r) ==> HoldsAt(pages', contents', r)) {
      HoldsThere(pages, n, contents, r);
    }
  }

  lemma {:induction false} ResetHolds(pages: map<int, Page>, n: nat, contents: map<Rid, Bytes>, rid: Rid, page': Page)
    requires Holds(pages, n, contents) && PagesOk(pages, n) && rid.page_no in pages && 0 <= rid.slot_no < n
    requires Fits(pages[rid.page_no].bitmap, rid.slot_no) && page'.slots == pages[rid.page_no].slots
    requires page'.bitmap == ResetBit(pages[rid.page_no].bitmap, rid.slot_no)
    ensures Holds(pages[rid.page_no := page'], n, contents - {rid})
  {
    hide IsSet, ResetBit;
    assert PageOk(pages[rid.page_no], n);
    var pages', contents' := pages[rid.page_no := page'], contents - {rid};
    forall r ensures (r in contents' <==> Live(pages', n, r)) &&
        (Live(pages', n, r) ==> HoldsAt(pages', contents', r)) {
      HoldsThere(pages, n, contents, r);
      if r.page_no == rid.page_no && 0 <= r.slot_no < n {
        BitChange(pages[rid.page_no].bitmap, rid.slot_no, r.slot_no);
      }
    }
  }

  /** Changes that keep the link of a page and whether it has room keep the list. */
  lemma {:induction false} SameFree(pages: map<int, Page>, n: nat, first: int, free: seq<int>, p: int, page': Page)
    requires FreeList(pages, n, first, free) && p in pages && page'.next == pages[p].next
    requires page'.num < n <==> pages[p].num < n
    ensures FreeList(pages[p := page'], n, first, free)
    ensures free != [] && Room(pages, n, free[0]) ==> Room(pages[p := page'], n, free[0])
  {
    var pages' := pages[p := page'];
    forall i | 0 <= i < |free| ensures FreeAt(pages', free, i) {
      assert FreeAt(pages, free, i);
    }
    forall q | Room(pages', n, q) ensures q in free {
      assert Room(pages, n, q);
    }
    forall i | 0 < i < |free| ensures Room(pages', n, free[i]) {
      assert Room(pages, n, free[i]);
    }
  }

  lemma {:induction false} FullNotFree(pages: map<int, Page>, n: nat, first: int, free: seq<int>, p: int)
    requires FreeList(pages, n, first, free) && p in pages && pages[p].num >= n
    requires free != [] ==> Room(pages, n, free[0])
    ensures p !in free
    ensures free != [] ==> free[0] != p
  {
    forall i | 0 <= i < |free| ensures free[i] != p {
      assert i > 0 ==> Room(pages, n, free[i]);
    }
  }

  lemma {:induction false} FirstIsNot(pages: map<int, Page>, first: int, free: seq<int>, p: int)
    requires p in pages && p !in free && first == if free == [] then RM_NO_PAGE else free[0]
    requires RM_NO_PAGE !in pages
    ensures first != p
  {
    assert free != [] ==> free[0] in free;
  }

  lemma {:induction false} PushFree(pages: map<int, Page>, n: nat, first: int, free: seq<int>, p: int)
    requires p in pages && pages[p].num < n && p !in free && FreeList(pages[p := pages[p].(num := n)], n, first, free)
    requires free != [] ==> Room(pages, n, free[0])
    ensures FreeList(pages[p := pages[p].(next := first)], n, p, [p] + free)
  {
    var was := pages[p := pages[p].(num := n)];
    var pages', free' := pages[p := pages[p].(next := first)], [p] + free;
    forall i | 0 <= i < |free'| ensures FreeAt(pages', free', i) {
      if i > 0 {
        assert FreeAt(was, free, i - 1);
        assert free[i - 1] in free;
      }
    }
    forall q | Room(pages', n, q) ensures q in free' {
      if q == p { assert free'[0] == q; } else { assert Room(was, n, q); }
    }
    forall i | 0 < i < |free'| ensures Room(pages', n, free'[i]) {
      assert i > 1 ==> Room(was, n, free[i - 1]);
    }
  }

  lemma {:induction false} FirstHasRoom(pages: map<int, Page>, n: nat, first: int, free: seq<int>)
    requires FreeList(pages, n, first, free) && free != []
    ensures first == free[0] && free[0] in pages
  {
    assert FreeAt(pages, free, 0);
  }

  lemma {:induction false} FillHolds(pages: map<int, Page>, n: nat, contents: map<Rid, Bytes>, p: int, slot: nat,
      buf: Bytes, page': Page)
    requires Holds(pages, n, contents) && PagesOk(pages, n) && p in pages && slot < n && !Live(pages, n, Rid(p, slot))
    requires page'.bitmap == SetBit(pages[p].bitmap, slot) && page'.slots == pages[p].slots[slot := buf]
    ensures Holds(pages[p := page'], n, contents[Rid(p, slot) := buf])
  {
    hide IsSet, SetBit;
    assert PageOk(pages[p], n);
    var pages', contents' := pages[p := page'], contents[Rid(p, slot) := buf];
    forall r ensures (r in contents' <==> Live(pages', n, r)) &&
        (Live(pages', n, r) ==> HoldsAt(pages', contents', r)) {
      assert r in contents <==> Live(pages, n, r);
      assert Live(pages, n, r) ==> HoldsAt(pages, contents, r);
      if r.page_no == p && 0 <= r.slot_no < n {
        BitChange(pages[p].bitmap, slot, r.slot_no);
      }
    }
  }

  lemma {:induction false} FillFree(pages: map<int, Page>, n: nat, first: int, free: seq<int>, p: int, page': Page)
    requires FreeList(pages, n, first, free) && free != [] && p == free[0] && p in pages
    requires page'.next == pages[p].next && page'.num >= pages[p].num
    ensures FreeList(pages[p := page'], n, first, free)
  {
    var pages' := pages[p := page'];
    forall i | 0 <= i < |free| ensures FreeAt(pages', free, i) {
      assert FreeAt(pages, free, i);
    }
    forall q | Room(pages', n, q) ensures q in free {
      assert q == p || Room(pages, n, q);
    }
    forall i | 0 < i < |free| ensures Room(pages', n, free[i]) {
      assert Room(pages, n, free[i]);
    }
  }

  lemma {:induction false} PopFree(pages: map<int, Page>, n: nat, free: seq<int>, p: int)
    requires free != [] && p == free[0] && p in pages && FreeList(pages, n, p, free) && pages[p].num >= n
    ensures FreeList(pages[p := pages[p].(next := RM_NO_PAGE)], n, pages[p].next, free[1..])
    ensures |free| > 1 ==> Room(pages[p := pages[p].(next := RM_NO_PAGE)], n, free[1])
  {
    var pages', free' := pages[p := pages[p].(next := RM_NO_PAGE)], free[1..];
    assert FreeAt(pages, free, 0);
    forall i | 0 <= i < |free'| ensures FreeAt(pages', free', i) {
      assert FreeAt(pages, free, i + 1);
    }
    forall q | Room(pages', n, q) ensures q in free' {
      assert Room(pages, n, q);
    }
    forall i | 0 <= i < |free'| ensures Room(pages', n, free'[i]) {
      assert Room(pages, n, free[i + 1]);
    }
  }

  lemma {:induction false} PopHolds(pages: map<int, Page>, n: nat, contents: map<Rid, Bytes>, p: int)
    requires Holds(pages, n, contents) && p in pages
    ensures forall next :: Holds(pages[p := pages[p].(next := next)], n, contents)
  {
    hide IsSet;
    forall next ensures Holds(pages[p := pages[p].(next := next)], n, contents) {
      var pages' := pages[p := pages[p].(next := next)];
      forall r ensures (r in contents <==> Live(pages', n, r)) &&
          (Live(pages', n, r) ==> HoldsAt(pages', contents, r)) {
        assert r in contents <==> Live(pages, n, r);
        assert Live(pages, n, r) ==> HoldsAt(pages, contents, r);
      }
    }
  }

  lemma {:induction false} EmptyPage(bitmap: Bytes, n: nat)
    requires n <= 8 * |bitmap| && forall i :: 0 <= i < |bitmap| ==> bitmap[i] == 0
    ensures Count(bitmap, n) == 0 && forall i :: 0 <= i < n ==> !IsSet(bitmap, i)
  {
    hide IsSet;
    forall i | 0 <= i < n ensures !IsSet(bitmap, i) {
      assert bitmap == seq(|bitmap|, _ => 0 as bv8);
      ZeroBits(|bitmap|, i);
    }
    CountZero(bitmap, n);
  }

  lemma {:induction false} NewPageHolds(pages: map<int, Page>, n: nat, contents: map<Rid, Bytes>, p: int, page: Page)
    requires Holds(pages, n, contents) && p !in pages && n <= 8 * |page.bitmap|
    requires forall i :: 0 <= i < n ==> !IsSet(page.bitmap, i)
    ensures Holds(pages[p := page], n, contents)
  {
    hide IsSet;
    var pages' := pages[p := page];
    forall r ensures (r in contents <==> Live(pages', n, r)) && (Live(pages', n, r) ==> HoldsAt(pages', contents, r)) {
      assert r in contents <==> Live(pages, n, r);
      assert Live(pages, n, r) ==> HoldsAt(pages, contents, r);
    }
  }

  lemma {:induction false} NewPageFree(pages: map<int, Page>, n: nat, free: seq<int>, p: int, page: Page)
    requires FreeList(pages, n, page.next, free) && p !in pages && page.num == 0
    requires free != [] ==> Room(pages, n, free[0])
    ensures FreeList(pages[p := page], n, p, [p] + free)
  {
    var pages', free' := pages[p := page], [p] + free;
    forall i | 0 <= i < |free'| ensures FreeAt(pages', free', i) {
      if i > 0 {
        assert FreeAt(pages, free, i - 1);
      }
    }
    forall i, j | 0 <= i < j < |free'| ensures free'[i] != free'[j] {
      assert FreeAt(pages, free, j - 1);
    }
    forall q | Room(pages', n, q) ensures q in free' {
      if q == p { assert free'[0] == q; } else { assert Room(pages, n, q); }
    }
  }

  // ---------- the page headers together ----------

  /** The sum of the record counts in the headers of pages 1 to `k` - 1. */
  ghost function HeaderTotal(pages: map<int, Page>, k: nat): nat
    requires forall p :: 1 <= p < k ==> p in pages
  {
    if k <= 1 then 0 else HeaderTotal(pages, k - 1) + pages[k - 1].num
  }

  ghost function Before(contents: map<Rid, Bytes>, p: int, s: int): set<Rid>
  {
    set r | r in contents && (r.page_no < p || (r.page_no == p && r.slot_no < s))
  }

  lemma {:induction false} HoldsBit(pages: map<int, Page>, n: nat, contents: map<Rid, Bytes>, p: int, s: nat)
    requires Holds(pages, n, contents) && p in pages && s < n && Fits(pages[p].bitmap, s) && IsSet(pages[p].bitmap, s)
    ensures Rid(p, s) in contents
  {
    assert Live(pages, n, Rid(p, s));
  }

  /** The records before slot `s` of page `p` are as many as the headers before it and the bits before it say. */
  lemma {:induction false} TallyBefore(pages: map<int, Page>, n: nat, numPages: int, contents: map<Rid, Bytes>, p: nat,
      s: nat)
    requires (forall q :: q in pages <==> 1 <= q < numPages) && PagesOk(pages, n) && Holds(pages, n, contents)
    requires 1 <= p <= numPages && s <= n && (s > 0 ==> p < numPages)
    ensures p in pages ==> PageOk(pages[p], n)
    ensures |Before(contents, p, s)| == HeaderTotal(pages, p) + if s > 0 then Count(pages[p].bitmap, s) else 0
    decreases p, s
  {
    hide IsSet, Holds;
    assert p in pages ==> PageOk(pages[p], n);
    if s > 0 {
      var r := Rid(p, s - 1);
      TallyBefore(pages, n, numPages, contents, p, s - 1);
      HoldsThere(pages, n, contents, r);
      var was := Before(contents, p, s - 1);
      assert Before(contents, p, s) == if r in contents then was + {r} else was;
    } else if p > 1 {
      TallyBefore(pages, n, numPages, contents, p - 1, n);
      forall r ensures r in Before(contents, p, 0) <==> r in Before(contents, p - 1, n) {
        HoldsThere(pages, n, contents, r);
      }
      assert Before(contents, p, 0) == Before(contents, p - 1, n);
      assert PageOk(pages[p - 1], n);
    } else {
      forall r ensures r !in Before(contents, p, 0) {
        HoldsThere(pages, n, contents, r);
      }
      assert Before(contents, p, 0) == {};
    }
  }

  /** The record counts in the page headers add up to the number of records. */
  lemma {:induction false} HeadersCountRecords(f: RmFileHandle)
    requires f.Valid()
    ensures HeaderTotal(f.pages, f.numPages) == |f.contents|
  {
    hide Holds, FreeList;
    TallyBefore(f.pages, f.perPage, f.numPages, f.contents, f.numPages, 0);
    forall r | r in f.contents ensures r in Before(f.contents, f.numPages, 0) {
      HoldsThere(f.pages, f.perPage, f.contents, r);
    }
    assert Before(f.contents, f.numPages, 0) == f.contents.Keys;
  }
}
